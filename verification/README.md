# TAKT OS: storage, update and scheduling, verified

A model of the parts of TAKT OS that keep data and devices alive, with proofs of what they promise.
The components, from the flash upwards:

- **Checksums.** `ShiftRegister.dfy` proves once, for every width and polynomial, that the reflected
  CRC register is a linear and reversible shift. `Crc32.dfy` derives the table-driven CRC-32 of
  IEEE 802.3 (clause 3.2.9; RFC 1952, section 8), `Modbus.dfy` the CRC of the Modbus serial line
  (sections 2.5.1.2 and 6.2.2 of its specification). Burst detection and the Modbus residue follow.
  `CrcMeaning.dfy` says what both are without registers: remainders of polynomial division by the generators of the
  standards, with the standards' check values.
- **Storage.** `Storage.dfy`: a NOR flash (erasing sets bytes to 0xFF, programming ands bytes in) and the
  erase-before-write loop of `StorageManager`.
- **Firmware update.** `FirmwareSpec.dfy`, `FirmwareRuns.dfy`, `FirmwareHazards.dfy`, `FirmwareCache.dfy`: the
  A/B slots, headers, chunked writing, block-wise verification, activation and rollback, and what can go wrong
  with them. `Bootloader.dfy`: the boot record and the boot decision. `Recovery.dfy`: the update state machine
  that drives both.
- **Write-back cache.** `Cache.dfy`: what a program sees through `CacheManager`.
- **Kernel.** `Scheduler.dfy` (lifecycle, time accounts), `EventBus.dfy` (slot table, re-entrant ring queue),
  `Timer.dfy` (periodic timers and their registry), `Takt.dfy` (a whole takt: timer callbacks, queue, modules and
  the overrun event, over any run of takts with table calls and bus requests between them).
- **Key-value storage and configuration.** `Nvs.dfy`: checksummed entries with a backup namespace, across
  damage and boots. `Config.dfy`: the remote configuration tokenizer that writes into it.

Each component has the same shape. A `...Spec` module gives every call as a function on values and proves the
properties about those functions, over whole runs where the promise is about runs. An `...Impl` module (or
`Storage`, `Cache`, `Crc32`) holds the classes with the program's fields, arrays and loops; each method is
proved to compute the specification's function, so the properties hold of the code that updates in place.

Conventions: bytes and 32-bit fields are numbers of the right range and wrap where the program wraps; words
that are shifted are sequences of bits, least significant first; `old` states of the flash are byte sequences.
The clock, `hasWork()`, `init()`, what callbacks and modules ask for (as a function of all that has happened), the
answers on the serial line and the damage done to stored values are inputs, quantified over everywhere. A boot
record's padding byte is held fixed.

## What turned out not to hold

The code is modelled as it is. Where a promise fails, the lemmas named here show it, the ones ending in `Iff` with
the exact condition under which it holds:

- A chunk that starts inside a sector wipes the end of the chunk before it, and the loss is final
  (`MisalignedChunkBody`, `UpdateIntactIff`), also when the chunk is empty; `finalizeWrite` notices short losses
  (`SpoiledUpdateRejected`, `MisalignedUpdateRejected`). A chunk that runs over the slot is not refused and
  destroys an active image behind it (`ChunkLengthSafeIff`).
- An empty write erases a sector, and at offset 0 the whole flash (`EmptyWriteHarmlessIff`,
  `EmptyWriteAtZeroErasesFlash`): the end sector is computed from `offset + len - 1`.
- `docs/bootloader.md` line 71 lets `validateFirmware` check the size against the slot; the code does not. Headers
  that announce more than their slot holds verify (`OversizedVerifies`), until an update of the other slot spoils
  them: its header alone does, when the body reaches one byte too far (`OneByteTooMany`, `UpdatesHarmlessIff`).
  The update theorems require that sizes fit (`SizesFit`), and `StepKeepsInv` proves that they keep fitting.
  `tests/test_firmware_cache.cpp` uses overlapping slots, which the class accepts and the theorems about two slots
  exclude.
- `init` looks at the flags of the headers only. A failed update of slot A leaves a valid header there, and the next
  start makes the spoiled slot the active one (`FailedUpdateMisleadsInit`, `InitPicksVerifiedIff`); one more chunk
  can then leave no image at all (`FailedUpdateThenReboot`, `RebootKeepsBootableIff`; `DeviceEndsWithNothing` takes a
  blank device there). Reboots while slot A is active are safe (`FirstActiveSound`). A successful update of slot B is
  not the active one after a restart unless slot A has no valid header (`UpdateSurvivesRebootIff`).
- `rollback` leaves the boot record asking for the slot that was rolled back (`RollbackUndoesUpdate`,
  `RollbackRecordAgreesIff`). `determineBootMode` acts on a record whose checksum is wrong
  (`FlippedCounterBitRecovers`, `DamageHarmlessIff`). The 8-bit boot counter wraps, so the 256th failed boot in a
  row is a normal one (`ProtectionWrapsAround`).
- The cache line of 256 bytes in `docs/memory.md` line 71 is smaller than a sector: writing it back erases its
  neighbours (`ShortLineWipesNeighbours`, `WritesBackExactlyIff`). A write miss does not fill the line
  (`MissTransparentIff`). A failed read leaves its line cached, so that the next one succeeds with unread bytes
  (`ReadTwice`). On a backend that returns byte counts every read miss fails (`LoadLine`). A dirty line beyond the
  flash, or any dirty line on such a backend, stops every flush (`Flush`), and eviction then loses changes
  (`KeptIff`), as a cache that starts empty can be made to do (`LoseChange`). Without such lines and backends the
  cache is invisible but for stores of part of a line (`Replay`).
- Registering a module object twice lets a stopped module be ticked (`StaysSafeIff`).
- A timer whose period overflows the 32-bit elapsed counter misses its firing at the end of it
  (`RepeatingFiringLaw`, `OneShotFiresOnce`, `OverflowingTimerMisses`). A timer registered twice is ticked twice, and
  unregistering leaves its first slot in use (`TickAll`, `RegisteredOnceMore`).
- `docs/memory.md` has `readEntry` restore on a mismatch; the code only reports failure, and restoring happens at
  boot. Values of 65536 bytes and more fail every later verification (`WrittenIsConsistentIff`); with a length that
  is a multiple of 65536 they are read through a null buffer, so that every boot of an otherwise sound device stops
  in the check (`LongValueStopsBoot`, `KernelBoot`). A value that vanishes, with its metadata or alone, is not
  noticed and not restored unless something else fails the check (`InitRecoversIff`, `VanishedKeyStaysLost`); only
  a value that loses its metadata is. And keys removed on purpose come back with a restore (`RemovedKeyStaysIff`).
- `docs/components/services.md` has `ConfigManager` parse JSON and publish `ConfigUpdated`; the code parses
  `key=value` pairs and publishes `SystemReady`. Texts of 512 characters and more are cut (`ArrivesIff`). Of
  a key and its metadata key only the one set last is kept (`MetaSettingLost`, `AlwaysWinsIff`).
- A pending Modbus coil write goes out as a request to read a register (`ModbusModule.Tick`), and the checksum of
  the answer is not looked at.

## Model

| member | source | states |
|---|---|---|
| ShiftRegister.ShiftEightTimes | kernel/src/crc32.cpp:17-20 | the eight-step inner loop of all the checksum routines is the eightfold shift |
| ShiftRegister.EightShiftsByTable | kernel/src/crc32.cpp:27-34 | eight shifts of any register are the eight shifts of its low byte xored with the rest moved down: why a table works |
| ShiftRegister.ShiftsInjective | kernel/src/crc32.cpp:17-20 | any number of shifts is reversible |
| ShiftRegister.FoldAppend | kernel/src/crc32.cpp:27-34 | the register after a concatenation is the register after one part continued with the other |
| ShiftRegister.FoldIsBitSerial | kernel/src/crc32.cpp:27-34 | the byte-wise register equals the bit-serial one of the standards on every byte string |
| ShiftRegister.BurstDetected | kernel/src/crc32.cpp:14-34 | two different messages of one length that differ only inside a burst no longer than the register, at any bit position, leave different registers |
| ShiftRegister.WindowIsBurst | kernel/src/crc32.cpp:27-34 | altering k consecutive bytes is a burst of 8k bits |
| Crc32Spec.PolynomialIsProper | kernel/src/crc32.cpp:17-20 | the polynomial has the constant term all the reversibility arguments need |
| Crc32Spec.UpdateAppend | kernel/src/crc32.cpp:27-34 | updating over a concatenation is updating twice |
| Crc32Spec.CrcIsBitSerial | kernel/src/crc32.cpp:36-38 | the byte-wise checksum equals the one computed bit by bit on every byte string |
| ChecksumMeaning.CrcIsRemainderIff | kernel/src/crc32.cpp:14-38 | for every byte string a number is its checksum if and only if its complement is the remainder of the message times x^32, with the first 32 bits complemented, by the generator of IEEE 802.3 with the exponents 32, 26, 23, 22, 16, 12, 11, 10, 8, 7, 5, 4, 2, 1, 0 |
| ChecksumMeaning.CrcOfDigits | tests/test_firmware_cache.cpp:57-60 | the checksum of "123456789" is 0xCBF43926 |
| Polynomials.RemainderUnique | kernel/src/crc32.cpp:14-38 | the remainder of a polynomial division is unique |
| Polynomials.RegisterDivides | kernel/src/crc32.cpp:17-20 | a register of any width divides: what it held and the message leave it as the remainder, and the bits that fall out are the quotient |
| Polynomials.BitsInOrder | kernel/src/crc32.cpp:27-34 | the coefficients of a message are the bits of its bytes, low bit first |
| Crc32Spec.CrcDetectsBurst | kernel/src/crc32.cpp:36-38 | every error burst of up to 32 bits, at any bit position, changes the checksum |
| Crc32Spec.CrcDetectsWindow | kernel/src/crc32.cpp:36-38 | altering up to four consecutive bytes of any message changes the checksum |
| Crc32.Crc32Engine.FillTable | kernel/src/crc32.cpp:14-24 | every table slot ends up as its index shifted eight times |
| Crc32.Crc32Engine.InitTable | kernel/src/crc32.cpp:14-24 | the table is right after the first call and later calls leave it so |
| Crc32.ByteStepByTable | kernel/src/crc32.cpp:30-32 | one lookup and one xor make one byte step |
| Crc32.Crc32Engine.Update | kernel/src/crc32.cpp:27-34 | the table loop computes the register of the standard from any starting value |
| Crc32.Crc32Engine.Compute | kernel/src/crc32.cpp:36-38 | the result is the checksum of the whole byte string |
| Sectors.AlignedIsMultiple | kernel/src/storage_manager.cpp:37-38 | the alignment that every layout condition speaks of is divisibility by the sector size |
| StorageSpec.WriteIsExact | kernel/src/storage_manager.cpp:33-46 | a non-empty write succeeds exactly when range and last touched sector lie in the flash; then the range holds the data, the rest of the touched sectors is 0xFF and every other byte is as before |
| StorageSpec.WriteThenRead | kernel/src/storage_manager.cpp:33-46 | a successful write reads back |
| StorageSpec.WriteStaysInside | kernel/src/storage_manager.cpp:35-45 | a write inside a range of whole sectors succeeds and changes nothing outside it |
| StorageSpec.RefusedWrite | kernel/src/storage_manager.cpp:35 | a write that runs out of the flash is refused before anything is erased |
| StorageSpec.AlignedWriteKeepsPrefix | kernel/src/storage_manager.cpp:37-44 | a write on a sector boundary leaves everything before it alone |
| StorageSpec.MisalignedWriteWipes | kernel/src/storage_manager.cpp:37-44 | a write inside a sector erases that sector up to the write |
| StorageSpec.EmptyWriteHarmlessIff | kernel/src/storage_manager.cpp:35-45 | for every flash and offset, exactly which empty writes change nothing: those beyond the flash, on a sector boundary other than 0, or reaching sectors that are erased already |
| StorageSpec.EmptyWriteAtZeroErasesFlash | kernel/src/storage_manager.cpp:35-45 | an empty write at offset 0 erases a flash of 4096-byte sectors and reports failure |
| Storage.StorageManager.Read | kernel/src/storage_manager.cpp:27-31 | inside the flash the bytes come back unchanged with the backend's success code, otherwise -1 |
| Storage.StorageManager.Write | kernel/src/storage_manager.cpp:33-46 | erasing sector by sector and then programming has the specified outcome, on success and on failure |
| Storage.StorageManager.EraseSectors | kernel/src/storage_manager.cpp:39-44 | the loop erases the sectors in order and stops at the first that does not fit, with the earlier ones gone |
| FirmwareSpec.HeaderRoundTrip | kernel/include/takt/firmware_cache.hpp:15-24 | a header read back from its bytes is the header written, for all field values |
| FirmwareSpec.HeaderLayout | kernel/include/takt/firmware_cache.hpp:15-24 | where magic, version, size, checksum, timestamp, slot and flags lie in the 24 bytes, lowest byte first |
| FirmwareSpec.VerdictOnBytes | kernel/src/firmware_cache.cpp:90-118 | a slot verifies exactly when the flash holds "TKAT", an odd flags byte, and a checksum at offset 12 that is that of as many body bytes as announced at offset 8 |
| FirmwareSpec.BeginAcceptsIff | kernel/src/firmware_cache.cpp:46-50 | an update is accepted exactly when its image fits the slot behind 4096 bytes; otherwise nothing changes |
| FirmwareSpec.HeaderWriteReadsBack | kernel/src/firmware_cache.cpp:84 | a header written to a slot is the header read from it, whatever was there |
| FirmwareSpec.HeaderWriteKeepsBody | kernel/src/firmware_cache.cpp:134-137 | rewriting a slot's header keeps every byte of its body, although whole sectors are erased |
| FirmwareSpec.ChunkWriteKeepsHeader | kernel/src/firmware_cache.cpp:62-70 | writing body bytes keeps the slot's header |
| FirmwareSpec.WriteKeepsOtherSlot | kernel/src/storage_manager.cpp:33-46 | a write inside one slot changes no byte of the other |
| FirmwareSpec.SameSlotSameVerdict | kernel/src/firmware_cache.cpp:90-118 | whether a slot verifies depends on its own bytes only |
| FirmwareRuns.StepKeepsInv | kernel/src/firmware_cache.cpp:46-146 | every call keeps the layout, the write position and all announced sizes inside their slots |
| FirmwareRuns.StepKeepsActiveImage | kernel/src/firmware_cache.cpp:46-146 | no call damages the active image, and only an image that verified becomes active, with its body unchanged by the header rewrite |
| FirmwareRuns.ActiveSlotAlwaysVerifies | kernel/src/firmware_cache.cpp:46-146 | over every run of calls the active slot verifies in every state once it does |
| FirmwareRuns.ActiveBodyNeverChanges | kernel/src/firmware_cache.cpp:46-146 | while a slot stays active, no run changes a byte of its body |
| FirmwareRuns.UpdateReadsBack | kernel/src/firmware_cache.cpp:46-118 | an image sent in any sector-aligned chunks is finalized successfully, reads back as exactly the bytes sent, and its header holds size, version and checksum |
| FirmwareRuns.SecondSlotFirstIff | kernel/src/firmware_cache.cpp:40-43 | after init slot B is active exactly when it has a valid header and slot A has none; otherwise slot A |
| FirmwareRuns.FactoryInstall | kernel/src/firmware_cache.cpp:25-140 | init of an erased flash makes slot A active; the first update is written to slot B, and once it is activated the device runs exactly the image sent, marked valid and bootable |
| FirmwareRuns.ActivatedHeader | kernel/src/firmware_cache.cpp:134-137 | activating rewrites the header with its second flag bit set and nothing else changed |
| FirmwareRuns.FinalizeSucceedsIff | kernel/src/firmware_cache.cpp:72-88 | finalizing succeeds exactly when the body in flash has the checksum of the bytes received |
| FirmwareRuns.VerifyRejectsBurst | kernel/src/firmware_cache.cpp:90-118 | a verified image whose body suffers any burst of up to 32 bits is rejected |
| FirmwareHazards.MisalignedChunkBody | kernel/src/firmware_cache.cpp:62-70 | what the body in flash and the running checksum are after a chunk, empty or not, that starts anywhere in a sector, whatever the earlier chunks left |
| FirmwareHazards.FlashIntactIff | kernel/src/firmware_cache.cpp:62-70 | over any list of chunks a spoiled byte never recovers: the flash holds the image exactly when no chunk wiped anything but 0xFF |
| FirmwareHazards.UpdateIntactIff | kernel/src/firmware_cache.cpp:46-88 | a whole update in chunks of any lengths, empty ones included, reads back as the image if and only if every wiped tail was 0xFF; finalizeWrite succeeds exactly when what is in flash has the image's checksum |
| FirmwareHazards.SectorWiseTailsErased | kernel/src/firmware_cache.cpp:62-70 | chunks on sector boundaries wipe nothing |
| FirmwareHazards.SpoiledUpdateRejected | kernel/src/firmware_cache.cpp:62-88 | an update of any chunks that lost bytes on the way is refused by finalizeWrite whenever the damage lies in a burst of 32 bits |
| FirmwareHazards.MisalignedUpdateRejected | kernel/src/firmware_cache.cpp:62-88 | an update of any chunks in which one chunk starts one to four bytes into a sector and wipes something, and no other does, is refused by finalizeWrite |
| FirmwareHazards.TwoBytesRejected | kernel/src/firmware_cache.cpp:46-88 | in every layout with sectors of more than one byte, the bytes 1 and 2 sent in two chunks are refused |
| FirmwareHazards.ChunkMissesActive | kernel/src/firmware_cache.cpp:62-70 | a chunk behind the active slot, or ending before it, or refused, leaves the active image verified |
| FirmwareHazards.OverrunDestroysActive | kernel/src/firmware_cache.cpp:62-70 | a chunk that reaches the start of the active slot with a byte other than the first one of the magic number destroys its header, in every layout and even when the write fails half-way |
| FirmwareHazards.ChunkLengthSafeIff | kernel/src/firmware_cache.cpp:62-70 | for every layout, exactly which chunk lengths leave the active image verified for every content |
| FirmwareHazards.OversizedVerifies | kernel/src/firmware_cache.cpp:90-118 | a header announcing any size that stays in the flash, however far beyond its slot, verifies with the checksum of those bytes |
| FirmwareHazards.StepWritesSlot | kernel/src/firmware_cache.cpp:46-88 | each call of an update changes bytes of the inactive slot only, whose first four stay or become the magic number |
| FirmwareHazards.FinishSpoils | kernel/src/firmware_cache.cpp:72-88 | a body that reaches up to four bytes into the other slot stops verifying as soon as an update there is finalized, unless those bytes are the magic number |
| FirmwareHazards.UpdatesHarmlessIff | kernel/src/firmware_cache.cpp:46-88 | any updates of the other slot, finished or not, leave a verifying slot verifying if and only if the other slot comes first, or the announced body ends before it, or reaches at most four bytes into it and those hold the magic number |
| FirmwareHazards.OneByteTooMany | kernel/src/firmware_cache.cpp:72-118 | on an erased flash with adjacent slots of 8192 bytes a header announcing 4097 bytes verifies until any update of the other slot is finalized |
| FirmwareHazards.InitPicksVerifiedIff | kernel/src/firmware_cache.cpp:40-43 | when some slot verifies, init picks one that does if and only if a valid header in slot A means what it says |
| FirmwareHazards.FailedUpdateMisleadsInit | kernel/src/firmware_cache.cpp:40-88 | after a failed update of slot A init picks that slot although it does not verify |
| FirmwareHazards.FirstByteSpoils | kernel/src/firmware_cache.cpp:62-70 | the first byte of an update already spoils the image it overwrites, for one of two values |
| FirmwareCacheImpl.FirmwareCache.Init | kernel/src/firmware_cache.cpp:25-44 | for any offsets and slot size, slot B is active exactly when it has a valid header and slot A has none; otherwise slot A |
| FirmwareCacheImpl.FirmwareCache.GetHeader | kernel/src/firmware_cache.cpp:148-154 | success exactly when a header with the right magic lies at the slot |
| FirmwareCacheImpl.FirmwareCache.BeginWrite | kernel/src/firmware_cache.cpp:46-60 | refines the specified call for any layout, with the unsigned size check |
| FirmwareCacheImpl.FirmwareCache.WriteChunk | kernel/src/firmware_cache.cpp:62-70 | refines the specified call: flash, running checksum and position advance together or not at all |
| FirmwareCacheImpl.FirmwareCache.FinalizeWrite | kernel/src/firmware_cache.cpp:72-88 | refines the specified call: header written, result is the verdict on what was written |
| FirmwareCacheImpl.FirmwareCache.Verify | kernel/src/firmware_cache.cpp:90-118 | for any layout true exactly when header and body checksum match, with nothing else changed; an empty body needs no flash behind the header |
| FirmwareCacheImpl.FirmwareCache.ReadBack | kernel/src/firmware_cache.cpp:99-115 | the block-wise checksum is that of the whole body, whatever the blocking; it fails exactly when a body that is not empty sticks out of the flash |
| FirmwareCacheImpl.FirmwareCache.ActivateSlot | kernel/src/firmware_cache.cpp:120-140 | refines the specified call: only a verified slot is activated and marked bootable |
| FirmwareCacheImpl.FirmwareCache.Rollback | kernel/src/firmware_cache.cpp:142-146 | refines the specified call: the other slot is activated when it verifies |
| BootSpec.SaveThenLoad | takt_boot/src/bootloader.cpp:46-72 | a saved record loads as intact with every field as it was |
| BootSpec.RecordLayout | takt_boot/include/takt/bootloader.hpp:23-29 | where the record's fields lie in the 12 bytes that its checksum covers |
| BootSpec.DecisionTable | takt_boot/src/bootloader.cpp:74-91 | the mode picked, read off magic number, counter, mode byte and verdicts: more than 3 boots, mode 3, mode 2, nothing that verifies, or else normal |
| BootSpec.DamagedRecordShows | takt_boot/src/bootloader.cpp:46-61 | any damage to the mode, counter, slot and padding bytes of a saved record is reported |
| BootSpec.DamageHarmlessIff | takt_boot/src/bootloader.cpp:74-91 | a record reported as damaged is decided on as a lost one would be exactly when its counter is at most 3 and it asks for neither an update nor a factory reset |
| BootSpec.DamagedEntryHarmlessIff | takt_boot/src/bootloader.cpp:160-186 | the same for a whole boot, which also saves the damaged fields under a fresh checksum |
| BootSpec.FlippedCounterBitRecovers | takt_boot/src/bootloader.cpp:74-91 | a concrete damaged record, reported as such, that sends a healthy device to recovery |
| BootSpec.RecordAfter | takt_boot/src/bootloader.cpp:144-186 | after a successful start and any boots and requests, the record is intact, counts the boots modulo 256 and holds the mode byte 2 if an update was asked for and 0 otherwise |
| BootSpec.SlotAfter | takt_boot/src/bootloader.cpp:144-186 | the record holds the slot asked for last |
| BootSpec.RecordAfterLoss | takt_boot/src/bootloader.cpp:46-72 | a record that was lost counts from 0 and asks for nothing |
| BootSpec.LostRecordProtection | takt_boot/src/bootloader.cpp:74-91 | the n-th boot after the loss picks recovery exactly when n mod 256 exceeds 3 |
| BootSpec.BootLoopProtection | takt_boot/src/bootloader.cpp:74-91 | the n-th boot in a row without success picks recovery exactly when n mod 256 exceeds 3, and otherwise exactly which mode it picks |
| BootSpec.ProtectionWrapsAround | takt_boot/src/bootloader.cpp:160-186 | the 256th failed boot in a row is a normal one |
| BootloaderImpl.Bootloader.Crc32Config | takt_boot/src/bootloader.cpp:36-44 | the bit-at-a-time loop computes the same checksum as the table-driven one, on every byte string |
| BootloaderImpl.Bootloader.LoadBootConfig | takt_boot/src/bootloader.cpp:46-61 | defaults for a missing magic; otherwise the fields and whether the checksum matches |
| BootloaderImpl.Bootloader.SaveBootConfig | takt_boot/src/bootloader.cpp:63-72 | the stored record is the given one under its own checksum |
| BootloaderImpl.Bootloader.DetermineBootMode | takt_boot/src/bootloader.cpp:74-91 | the decision from the stored record and the verdicts on both slots |
| BootloaderImpl.Bootloader.MarkBootSuccessful | takt_boot/src/bootloader.cpp:144-150 | counter and mode are reset, the slot is kept |
| BootloaderImpl.Bootloader.RequestOtaBoot | takt_boot/src/bootloader.cpp:152-158 | the record asks for the slot, the counter is kept |
| BootloaderImpl.Bootloader.Entry | takt_boot/src/bootloader.cpp:160-186 | one boot counts itself and then decides on the counted record |
| RecoverySpec.FinalizeDfuAllOrNothing | recovery/src/recovery_manager.cpp:79-100 | success exactly when the received image is in flash; then complete, switched, verified and requested in the boot record; otherwise failed with active slot and boot record as before; the previously active image is untouched either way |
| RecoverySpec.RollbackUndoesUpdate | recovery/src/recovery_manager.cpp:102-111 | a rollback straight after an update reactivates the earlier image unchanged, while the boot record still asks for the abandoned slot |
| RecoverySpec.RollbackRecordAgreesIff | recovery/src/recovery_manager.cpp:102-111 | after any successful rollback the boot record asks for the active slot exactly when it asked for that slot before |
| RecoverySpec.DfuStepKeepsBootable | recovery/src/recovery_manager.cpp:53-119 | every call of the update state machine, every successful start and every reboot under its condition keeps the device bootable |
| RecoverySpec.RebootKeepsBootableIff | kernel/src/firmware_cache.cpp:40-43 | a reboot, which counts itself in the boot record, clears the memory and runs init, keeps the device bootable if and only if a valid header in slot A means what it says |
| RecoverySpec.RebootWithoutHeader | kernel/src/firmware_cache.cpp:40-43 | a reboot of a flash without a valid header leaves slot A active and nothing in progress |
| RecoverySpec.FirstActiveSound | kernel/src/firmware_cache.cpp:40-43 | while slot A is active every reboot is safe, also in the middle of an update |
| RecoverySpec.DeviceStaysBootable | recovery/src/recovery_manager.cpp:53-119 | over every run of calls, starts and reboots in any order, reboots under that condition only while slot B is active, the active slot verifies, the boot record is intact and asks for an existing slot |
| RecoverySpec.NoEmergency | takt_boot/src/bootloader.cpp:74-91 | after every such run the bootloader does not go into emergency mode |
| RecoverySpec.UpdateSurvivesRebootIff | recovery/src/recovery_manager.cpp:79-100 | a successful update is still the active one after a reboot if and only if it went to slot A or slot A has no valid header |
| RecoverySpec.FailedUpdateThenReboot | recovery/src/recovery_manager.cpp:79-100 | after a failed update of slot A and a reboot the spoiled slot is active, and one chunk of the next update can leave no slot that verifies |
| RecoverySpec.DeviceEndsWithNothing | recovery/src/recovery_manager.cpp:53-100 | a blank device, an update that succeeds, one in two chunks that fails, a reboot and one more byte: no slot verifies |
| RecoverySpec.ChunksOnlyWhileReceiving | recovery/src/recovery_manager.cpp:63-77 | chunks outside the awaiting and receiving states change nothing; in them the state is receiving afterwards and taken chunks are counted in full; a chunk before the image was announced is refused |
| RecoverySpec.AbortRefuses | recovery/src/recovery_manager.cpp:113-119 | after an abort chunks are refused and change nothing until the listener is started again |
| RecoverySpec.ListenerAnswers | recovery/src/recovery_manager.cpp:53-61 | the listener answers true exactly when a transport was chosen and started; images are awaited either way |
| RecoverySpec.FailedRollback | recovery/src/recovery_manager.cpp:102-111 | a rollback succeeds exactly when the other slot verifies; otherwise it fails with everything else as before |
| RecoveryImpl.RecoveryManager.StartDfuListener | recovery/src/recovery_manager.cpp:53-61 | refines the specified call, with the answer of the chosen transport |
| RecoveryImpl.RecoveryManager.ReceiveChunk | recovery/src/recovery_manager.cpp:63-77 | refines the specified call on state, counters, firmware cache and flash together |
| RecoveryImpl.RecoveryManager.FinalizeDfu | recovery/src/recovery_manager.cpp:79-100 | refines the specified call on state machine, firmware cache, flash and boot record together |
| RecoveryImpl.RecoveryManager.Rollback | recovery/src/recovery_manager.cpp:102-111 | refines the specified call, boot record untouched |
| RecoveryImpl.RecoveryManager.Abort | recovery/src/recovery_manager.cpp:113-119 | back to idle with counters cleared, firmware cache untouched |
| CacheSpec.LineWriteIsExact | kernel/src/cache_manager.cpp:83-95 | a line of whole sectors goes to flash exactly, touching no other byte |
| CacheSpec.ShortLineWipesNeighbours | kernel/src/cache_manager.cpp:83-95 | a line starting inside a sector erases the bytes before it |
| CacheSpec.WritesBackExactlyIff | kernel/src/cache_manager.cpp:83-95 | every line of every flash is written back exactly if and only if the line size is a multiple of the sector size |
| CacheSpec.WriteBackKeepsView | kernel/src/cache_manager.cpp:83-95 | writing a line back is invisible, whether or not it is then marked clean |
| CacheSpec.CleanViewIsFlash | kernel/src/cache_manager.cpp:83-95 | when every line inside the flash is clean the flash holds what the cache shows |
| CacheSpec.StoreInLine | kernel/src/cache_manager.cpp:73-81 | storing into a line changes the view in exactly that line, and nowhere when the line sticks out of the flash |
| CacheSpec.AppendLine | kernel/src/cache_manager.cpp:37-41 | a new line lays its buffer over the view and keeps keys unique |
| CacheSpec.ReplaceLine | kernel/src/cache_manager.cpp:51-54 | a line put in the place of another one: the old line's bytes become those of the flash, the new buffer is laid over |
| CacheSpec.LoadedUnseen | kernel/src/cache_manager.cpp:57-66 | copying a line from the flash that was not cached does not show |
| CacheSpec.DropAfterFlush | kernel/src/cache_manager.cpp:51-54 | evicting the oldest line after a flush shows what the cache showed, unless the flush gave up before reaching that line |
| CacheSpec.KeptIff | kernel/src/cache_manager.cpp:35-55 | making room in a full cache changes the contents exactly when the oldest line is dirty, a blocking line comes before it, and the flash does not hold its bytes |
| CacheSpec.NothingLost | kernel/src/cache_manager.cpp:35-55 | as long as no cached line sticks out of the flash and the backend returns 0, making room loses nothing |
| CacheSpec.BlockedCacheLoses | kernel/src/cache_manager.cpp:42-52 | a full cache whose first line blocks and was used twice, with lines never looked at again behind it, is one that loses a change |
| CacheSpec.MissTransparentIff | kernel/src/cache_manager.cpp:73-81 | a write miss is right for every old buffer exactly when it covers the whole line |
| Cache.CacheManager.FindLine | kernel/src/cache_manager.cpp:18-33 | the line with the key, or -1 exactly when there is none; contents unchanged |
| Cache.CacheManager.LeastRecentlyUsed | kernel/src/cache_manager.cpp:42-50 | the first entry with the smallest access stamp |
| Cache.CacheManager.MakeRoom | kernel/src/cache_manager.cpp:35-55 | a free slot, or the oldest line after a flush whose result is ignored; what is left to see is stated exactly, including what is lost |
| Cache.CacheManager.LoadLine | kernel/src/cache_manager.cpp:58-66 | a miss loads the line; it fails exactly when the line sticks out of the flash or the backend counts bytes, and the line is cached all the same |
| Cache.CacheManager.Read | kernel/src/cache_manager.cpp:57-71 | the caller gets what a flat byte array would hold, up to the end of the line, and the contents stay up to what making room loses; it fails exactly on a miss of a line that sticks out of the flash or with a backend that counts bytes, and the cache stays usable; a read inside the flash leaves no line beyond it |
| Cache.CacheManager.ClaimLine | kernel/src/cache_manager.cpp:75 | a write miss takes a line whose contents become exactly what its buffer held before |
| Cache.CacheManager.Write | kernel/src/cache_manager.cpp:73-81 | the contents change in exactly the returned prefix on a hit or a whole-line write; on any other miss exactly which stale bytes show; data for a line that sticks out of the flash shows nowhere and blocks every later flush; a write inside the flash leaves no line beyond it and its own line cached; the entries and counters afterwards, stamps included, unless a line had to go |
| Cache.CacheManager.WriteBack | kernel/src/cache_manager.cpp:85-91 | one dirty line goes to flash at its place, or stays behind when it sticks out; the result is 0 exactly when nothing blocks |
| Cache.CacheManager.FlushLine | kernel/src/cache_manager.cpp:84-92 | one step of the flush: the line is clean afterwards exactly when writing it back returned 0, and no other line of the flash changes |
| Cache.CacheManager.Flush | kernel/src/cache_manager.cpp:83-95 | the contents stay; the result is 0 exactly when no dirty line sticks out of the flash and no dirty line meets a backend that counts bytes, and then the flash equals the contents and every line is clean; otherwise exactly which lines were flushed |
| Cache.CacheManager.Invalidate | kernel/src/cache_manager.cpp:97-105 | no line is left and the contents are those of the flash |
| Cache.Perform | kernel/src/cache_manager.cpp:57-95 | one read, write or flush inside the flash has the answer and the effect of the call on a flat byte array, apart from the old bytes around a miss that stores part of a line; the line is cached afterwards, and a flush leaves the flash equal to the contents |
| Cache.Replay | kernel/src/cache_manager.cpp:35-95 | any list of reads, writes and flushes inside the flash, over hits, misses and evictions, has the answers and the contents of a flat byte array, with old buffer bytes showing exactly where a miss stored part of a line, and nowhere when each such store follows a call on its line; lines beyond the flash and backends that count bytes are all it excludes |
| Cache.ReadTwice | kernel/src/cache_manager.cpp:57-71 | after a failed read the same read succeeds |
| Cache.LoseChange | kernel/src/cache_manager.cpp:35-81 | on any empty cache, two writes beyond the flash, writes of lines 1 to 63 and one more miss lose the write of line 1, although it was taken in full |
| SchedulerAccounts.StepKeepsAccounts | kernel/src/scheduler.cpp:38-166 | every call keeps the time and takt accounts |
| SchedulerAccounts.TimeAccounting | kernel/src/scheduler.cpp:92-146 | over any run with a monotone clock, module times sum up to no more than the scheduler's, each total is at most ticks times longest tick, no tick is longer than the longest takt, and overruns never exceed ticks |
| SchedulerAccounts.TaktConservation | kernel/src/scheduler.cpp:102-132 | a background module's ticks and skips add up to the takts since its registration, across removal and shutdown; other modules never skip |
| SchedulerLaw.EntryLaw | kernel/src/scheduler.cpp:82-128 | over every run an entry that is ready and stays up ticks in every takt, or as a background module exactly in those whose hasWork() was true, and skips the others; its total, longest tick and overruns are the sum, the maximum and the number over budget modulo 2^32 of the ticks it took |
| SchedulerLaw.ForegroundTicksAlways | kernel/src/scheduler.cpp:82-128 | a module not in the background that is ready and stays up ticks in every takt |
| SchedulerLaw.RemovedNeverTicks | kernel/src/scheduler.cpp:55-62 | an entry that was removed never ticks again, whatever is called |
| SchedulerLaw.GettingReady | kernel/src/scheduler.cpp:38-80 | up to 48 entries are taken; a successful init() of an entry in use makes it ready, a failing one an error |
| SchedulerLaw.TaktLaw | kernel/src/scheduler.cpp:130-138 | over every run the number of takts, their total and longest time, and how many took longer than their budget modulo 2^32 |
| SchedulerLifecycle.StepKeepsInv | kernel/src/scheduler.cpp:38-166 | every call keeps runnable modules live and removed ones stopped |
| SchedulerLifecycle.TicksOnlyLiveModules | kernel/src/scheduler.cpp:38-166 | over any interleaving of calls tick() reaches only modules whose last init() succeeded with no shutdown() since, when no object is registered twice |
| SchedulerLifecycle.StepKeepsReachable | kernel/src/scheduler.cpp:38-166 | every call, double registrations included, keeps runnable modules with an object of their own live |
| SchedulerLifecycle.DoubleRegistrationTicksStopped | kernel/src/scheduler.cpp:38-62 | removing a second entry of a runnable object makes the next takt tick a stopped module |
| SchedulerLifecycle.StaysSafeIff | kernel/src/scheduler.cpp:38-166 | after every run from power-on, whatever was registered twice and whichever init() failed, all continuations are safe if and only if the run was safe so far and no active entry shares its object with another |
| SchedulerLifecycle.TaktFollowsRegistration | kernel/src/scheduler.cpp:102-128 | a takt ticks, in registration order and once each, exactly the entries in use that are ready or running, background modules only when they have work |
| SchedulerLifecycle.InitFollowsRegistration | kernel/src/scheduler.cpp:64-80 | init() is called on exactly the entries in use, in registration order and once each |
| SchedulerLifecycle.ShutdownFollowsRegistration | kernel/src/scheduler.cpp:159-166 | shutdown() is called on exactly the entries in use, in registration order and once each |
| SchedulerImpl.Scheduler.RegisterModule | kernel/src/scheduler.cpp:38-53 | refines the specified call, with the full table refused |
| SchedulerImpl.Scheduler.UnregisterModule | kernel/src/scheduler.cpp:55-62 | refines the specified call: shutdown() is called also on an entry removed before |
| SchedulerImpl.Scheduler.InitAll | kernel/src/scheduler.cpp:64-80 | refines the specified call; true exactly when every active module started |
| SchedulerImpl.Scheduler.ShouldRunModule | kernel/src/scheduler.cpp:82-90 | the specified condition, hasWork() consulted for background modules only |
| SchedulerImpl.Scheduler.RunModule | kernel/src/scheduler.cpp:102-128 | one entry's part of the loop is one step of the specified takt, with whatever its tick() does on the bus |
| SchedulerImpl.Scheduler.RunModules | kernel/src/scheduler.cpp:102-128 | the loop handles every entry once, in order, on table, call history and bus |
| SchedulerImpl.Scheduler.StartTakt | kernel/src/scheduler.cpp:95-96 | timer callbacks and queue drain have the specified effect on the bus, every timer advances once per slot it holds, and the tables stay |
| SchedulerImpl.Scheduler.FinishTakt | kernel/src/scheduler.cpp:102-145 | modules, statistics and overrun event have the specified effect on table and bus |
| SchedulerImpl.Scheduler.Account | kernel/src/scheduler.cpp:130-138 | the scheduler's statistics after a takt, and whether it overran |
| SchedulerImpl.Scheduler.RunTakt | kernel/src/scheduler.cpp:92-146 | refines the specified takt on table, statistics, call history, timers and bus together; a timer slot's callback runs exactly when its timer fires, and where every timer is afterwards |
| SchedulerImpl.Scheduler.RunTakts | kernel/src/scheduler.cpp:148-157 | any number of takts refine the specified run, and the callback of a timer in one slot runs as often as the timer alone would fire: n div period times in n takts if it repeats, was just started and its period fits 32 bits |
| SchedulerImpl.Scheduler.ShutdownAll | kernel/src/scheduler.cpp:159-166 | refines the specified call: every active module is shut down once, in order |
| TaktSpec.TaktDelivers | kernel/src/scheduler.cpp:92-146 | a takt first delivers what was queued, in order, with everything that timer callbacks and subscribers add, and then nothing any more; what its modules queue waits; timer callbacks run in slot order, then modules in registration order |
| TaktSpec.OverrunAnnounced | kernel/src/scheduler.cpp:137-144 | a takt over its budget raises event 4 with its time, cut to 32 bits, and its budget |
| TaktSpec.IdleTaktIff | kernel/src/scheduler.cpp:137-144 | with nothing else to do, the bus has no new history exactly when the takt kept its budget or has none |
| TaktSpec.DeliveredByNextTakt | kernel/src/scheduler.cpp:92-157 | in every state any run of takts, table calls and bus requests reaches, one more takt has delivered everything accepted before it, exactly once and in the order of acceptance, and what is queued then is exactly what was accepted and not delivered |
| TaktSpec.TaktCounts | kernel/src/scheduler.cpp:92-128 | in each takt every timer slot that fires and every entry that should run runs exactly once, and nothing else does |
| TaktSpec.SchedulerAlone | kernel/src/scheduler.cpp:38-166 | whatever happens on the bus, the scheduler's table and history over a run are those of its own calls |
| TaktSpec.RunFaithful | kernel/src/event_bus.cpp:18-81 | over every run each call of a subscriber is of a slot that at that moment was in use and subscribed to that event, with the callback and data it subscribed with |
| TaktSpec.KernelPromise | kernel/src/scheduler.cpp:38-166 | over every run from power-on without double registration, the modules that ran on the bus are those ticked in the scheduler's history, in its order, each initialized before and not shut down since, subscribers are called for their events only, and the next takt delivers every event accepted so far |
| TaktSpec.TickCountersTell | kernel/src/scheduler.cpp:92-128 | over every run from power-on a module's tick counter is the number of ticks that really ran, entries registered on the way included |
| TaktSpec.TimerCallbacksKeepTime | kernel/src/scheduler.cpp:95 | over every run in which a slot's flags are the firings of a timer, as `RunTakts` produces them, its callback runs as often as the timer alone would fire, whatever else happens |
| TaktSpec.RepeatingCallbacks | kernel/src/timer.cpp:50-69 | over every such run the callback of a repeating timer whose period fits 32 bits runs n div period times in n takts |
| EventBusSpec.DeliveryLosesWeight | kernel/src/event_bus.cpp:64-71 | delivering an event takes more weight out of the queue than its callbacks put in, whatever they remember: the loop ends |
| EventBusSpec.DispatchGrows | kernel/src/event_bus.cpp:73-81 | a dispatch, through any nesting of publications by callbacks that may depend on all that happened before, only lets the queue grow, by events of smaller rank, and records every one it accepted |
| EventBusSpec.DispatchCalls | kernel/src/event_bus.cpp:73-81 | a dispatch calls the listening slots, each once and in slot order, and nobody for another event of its rank or higher, when callbacks leave the subscriptions alone |
| EventBusSpec.DispatchFaithful | kernel/src/event_bus.cpp:73-81 | every call that a dispatch makes, callbacks that change the slots included, is of a slot that at that moment was in use, subscribed to that event, and had that callback and data |
| EventBusSpec.OnlyItsEvent | kernel/src/event_bus.cpp:18-39 | a subscriber is called for the event it subscribed to only, with its own data, and not at all after unsubscribing, until its slot is taken again |
| EventBusSpec.ListenerIsReached | kernel/src/event_bus.cpp:73-81 | a slot that is subscribed to an event throughout its dispatch is called, whatever callbacks do to other slots |
| EventBusSpec.SubscribeThenDispatch | kernel/src/event_bus.cpp:18-81 | after subscribing, a dispatch calls exactly the slots in use for its event that have a callback, in order, the new one if and only if the event is its own |
| EventBusSpec.AnswerIsQueued | kernel/src/event_bus.cpp:75-79 | a callback is run with the callback and data of its slot: the event it queues in answer is in the queue |
| EventBusSpec.DrainIsFifo | kernel/src/event_bus.cpp:53-71 | draining leaves the queue empty and delivers the queue as it stood followed by what was accepted meanwhile, in order; every event ever accepted has then been delivered exactly once |
| EventBusSpec.ActorExtends | kernel/src/event_bus.cpp:41-81 | a timer callback or a module, through any requests it makes of the bus, only lets the queue grow, records every event it accepted, takes nothing out, and is recorded once |
| EventBusSpec.DrainResumesNobody | kernel/src/event_bus.cpp:64-71 | draining runs no timer callback and no module |
| EventBusSpec.EchoEndsIff | kernel/src/event_bus.cpp:64-71 | without ranks the loop need not end: for a callback that queues its event again it ends exactly when nobody listens |
| EventBusImpl.EventBus.Subscribe | kernel/src/event_bus.cpp:18-31 | the first free slot is taken and nothing else changes; -1 exactly when every slot is in use |
| EventBusImpl.EventBus.Unsubscribe | kernel/src/event_bus.cpp:33-39 | an active slot is freed, any other handle changes nothing, and the subscriber count stays the number of active slots |
| EventBusImpl.EventBus.Enqueue | kernel/src/event_bus.cpp:53-62 | the event goes to the end of the queue, or is refused exactly when the queue is full |
| EventBusImpl.EventBus.Dispatch | kernel/src/event_bus.cpp:73-81 | slots, queue and history after the loop are those of the specified dispatch, with callbacks that publish, enqueue, subscribe and unsubscribe while it runs |
| EventBusImpl.EventBus.RunCallback | kernel/src/event_bus.cpp:78 | a running callback asks for one thing after the other and sees what came of it, with the specified outcome |
| EventBusImpl.EventBus.Serve | kernel/src/event_bus.cpp:18-62 | each request of a callback is the corresponding call of the bus |
| EventBusImpl.EventBus.RunActor | kernel/src/event_bus.cpp:18-81 | a timer callback or module at work sees what came of each request, with the specified outcome |
| EventBusImpl.EventBus.Grant | kernel/src/event_bus.cpp:18-62 | each request from outside a dispatch is the corresponding call of the bus |
| EventBusImpl.EventBus.PublishEvent | kernel/src/event_bus.cpp:41-51 | publishing is noted and then is an immediate dispatch: history, queue and slots as specified |
| EventBusImpl.EventBus.DispatchQueued | kernel/src/event_bus.cpp:64-71 | the loop computes the specified drain; the ring ends empty and every accepted event has been delivered exactly once, in order |
| EventBusImpl.EventBus.TakeOut | kernel/src/event_bus.cpp:66-68 | the oldest event is removed and nothing else changes |
| TimerSpec.PeriodIsCeiling | kernel/src/timer.cpp:58-69 | the period in ticks is the interval divided by the tick, rounded up and at least 1 |
| TimerSpec.FirstPeriod | kernel/src/timer.cpp:50-69 | the first firing comes at the last tick of the first period and not before, exactly when the elapsed counter does not wrap on the way |
| TimerSpec.RepeatingFiringLaw | kernel/src/timer.cpp:50-69 | a repeating timer has fired n div period times after n ticks, for every n, if and only if one period fits 32 bits |
| TimerSpec.OneShotFiresOnce | kernel/src/timer.cpp:50-69 | a one-shot timer has fired once from the end of its first period on, for every n, if and only if the period fits 32 bits |
| TimerSpec.GapBounds | kernel/src/timer.cpp:50-69 | the time between two consecutive firings is at least the interval and less than one tick more |
| TimerSpec.FiresAtMultiples | kernel/src/timer.cpp:58-69 | a repeating timer fires exactly at the multiples of its period |
| TimerSpec.ShortIntervalsFit | kernel/src/timer.cpp:58-69 | the period fits 32 bits whenever interval and tick together do |
| TimerSpec.OverflowingTimerMisses | kernel/src/timer.cpp:58-69 | a timer whose first period passes without a firing |
| TimerImpl.Timer.StartTimer | kernel/src/timer.cpp:50-53 | elapsed time cleared, timer active |
| TimerImpl.Timer.TickTimer | kernel/src/timer.cpp:58-69 | refines the specified tick, with the 32-bit sum, and tells whether the callback runs |
| TimerImpl.TimerManager.RegisterTimer | kernel/src/timer.cpp:78-89 | the first free slot is taken, also by a timer that has one already; false exactly when there is none; the count stays the number of used slots |
| TimerImpl.TimerManager.UnregisterTimer | kernel/src/timer.cpp:91-98 | the one slot the timer's handle names is freed if it holds the timer, and nothing else changes |
| TimerImpl.TimerManager.TickSlot | kernel/src/timer.cpp:58-69 | the timer in a slot advances by one tick, and its callback does what it does on the bus exactly when the timer fires |
| TimerImpl.TimerManager.TickAll | kernel/src/timer.cpp:100-104 | every timer advances once for each slot it is registered in, no other timer is touched, and the callbacks of the slots that fire run in slot order |
| TimerImpl.RegisteredOnceMore | kernel/src/timer.cpp:78-98 | registering adds one to the slots a timer holds and freeing that slot takes it away again, so a timer registered twice and unregistered once is still ticked |
| NvsSpec.MetadataRoundTrip | kernel/include/takt/nvs_manager.hpp:14-19 | version, size and checksum survive encoding into the 40-byte record |
| NvsSpec.MetadataLayout | kernel/include/takt/nvs_manager.hpp:14-19 | where the key's first 31 characters, version, size and checksum lie in the 40 bytes |
| NvsSpec.HasMetaIff | kernel/src/nvs_manager.cpp:231 | a key is passed over when "_meta" occurs anywhere in it |
| NvsSpec.WriteThenRead | kernel/src/nvs_manager.cpp:66-121 | a written entry reads back with its version into any buffer it fits, whatever was stored before |
| NvsSpec.WrittenIsConsistentIff | kernel/src/nvs_manager.cpp:66-93 | a written entry passes verification exactly when its length fits 16 bits |
| NvsSpec.WrittenNullReadsIff | kernel/src/nvs_manager.cpp:66-93 | a written entry is read through a null buffer exactly when its length is a multiple of 65536 other than 0 |
| NvsRuns.WriteKeepsInv | kernel/src/nvs_manager.cpp:66-93 | a write keeps every value either sound or backed up |
| NvsRuns.DamageKeepsInv | kernel/src/nvs_manager.cpp:212-254 | any change or loss of backed-up values and metadata leaves the backup able to repair it |
| NvsRuns.RestoreReads | kernel/src/nvs_manager.cpp:260-297 | after a restore every backed-up key reads its backed-up value |
| NvsRuns.RestoreApart | kernel/src/nvs_manager.cpp:278-290 | a restore touches backed-up keys and their metadata only |
| NvsRuns.RestoreHeals | kernel/src/nvs_manager.cpp:260-297 | a restore leaves every value of the primary namespace consistent |
| NvsRuns.BackupOf | kernel/src/nvs_manager.cpp:226-246 | what a backup makes of each key: the current value and metadata where there are any, otherwise the old ones |
| NvsRuns.BackupLeavesClean | kernel/src/nvs_manager.cpp:212-254 | backing up a sound namespace leaves both namespaces consistent and the backup marked |
| NvsRuns.BootLeavesClean | kernel/src/kernel.cpp:34-38 | one boot repairs whatever was damaged and leaves both namespaces consistent |
| NvsRuns.EveryBootLeavesClean | kernel/src/kernel.cpp:34-38 | over any run of damage, writes, removals and boots the backup survives and every boot leaves both namespaces consistent |
| NvsRuns.WriteApart | kernel/src/nvs_manager.cpp:66-93 | a write changes the two entries of its key only |
| NvsRuns.FirstBackup | kernel/src/kernel.cpp:34-38 | the first boot of a sound namespace establishes the invariant |
| NvsRuns.BootBacksUp | kernel/src/kernel.cpp:34-38 | after a boot the backup holds what the primary namespace holds |
| NvsRuns.BurstIsRepaired | kernel/src/nvs_manager.cpp:95-121 | overwriting up to four consecutive bytes of a value makes reading fail, and the next boot brings the value back |
| NvsRuns.InitRecoversIff | kernel/src/nvs_manager.cpp:51-54 | every backed-up value is sound after init() exactly when the check failed or no key had vanished |
| NvsRuns.LostNamespaceRestored | kernel/src/nvs_manager.cpp:260-310 | when the primary namespace is gone, the next boot brings back every backed-up value |
| NvsRuns.LostMetadataNoticed | kernel/src/nvs_manager.cpp:303-346 | a value that loses its metadata fails the check, and the next boot brings both back |
| NvsRuns.RestoreNeedsMark | kernel/src/nvs_manager.cpp:263-268 | without the mark 0xBAAC0DE1 nothing is restored |
| NvsRuns.BackupMarksIff | kernel/src/nvs_manager.cpp:212-254 | a backup is marked exactly when it was before or there is something to back up |
| NvsRuns.VanishedKeyStaysLost | kernel/src/nvs_manager.cpp:303-346 | a device with one backed-up key from which value and metadata vanish together: the check passes and no later boot brings the key back |
| NvsRuns.LongValueStopsBoot | kernel/src/nvs_manager.cpp:303-346 | after writing one value of such a length into a sound namespace the check can only stop in a null read |
| NvsRuns.RemovedKeyStaysIff | kernel/src/nvs_manager.cpp:187-202 | a removed key stays away over the next boot if and only if every remaining value checks out; otherwise it comes back with its backed-up value |
| NvsImpl.NvsManager.WriteEntry | kernel/src/nvs_manager.cpp:66-93 | metadata and value are stored under the two keys, creating the namespace if need be |
| NvsImpl.NvsManager.ReadEntry | kernel/src/nvs_manager.cpp:95-121 | a value only when metadata, length and checksum are right |
| NvsImpl.NvsManager.GetBlob | kernel/src/nvs_manager.cpp:136-153 | the length of the value read, or -1 exactly when reading fails |
| NvsImpl.NvsManager.Remove | kernel/src/nvs_manager.cpp:187-202 | value and metadata are gone, every other entry stays |
| NvsImpl.NvsManager.VerifyIntegrity | kernel/src/nvs_manager.cpp:303-346 | passes exactly when every value in the namespace is consistent, whatever the order of iteration; refuted or stopped by a null read only when there is a value of that kind |
| NvsImpl.NvsManager.Backup | kernel/src/nvs_manager.cpp:212-254 | refines the specified backup; false exactly when there is nothing to iterate over |
| NvsImpl.NvsManager.CopyAll | kernel/src/nvs_manager.cpp:226-246 | the copying loop writes the same entries in every order of iteration |
| NvsImpl.NvsManager.RestoreFromBackup | kernel/src/nvs_manager.cpp:260-297 | refines the specified restore; false exactly when the backup is not marked |
| NvsImpl.NvsManager.WriteAll | kernel/src/nvs_manager.cpp:278-290 | the restoring loop writes the same entries in every order of iteration |
| NvsImpl.NvsManager.Init | kernel/src/nvs_manager.cpp:38-60 | a restore happens exactly when verification fails; a null read stops it with nothing changed, certainly so when no other value fails the check |
| NvsImpl.KernelBoot | kernel/src/kernel.cpp:34-38 | the boot sequence in place is the specified boot, unless a null read stops it with nothing changed |
| ModbusSpec.PolynomialIsProper | middleware/src/modbus_module.cpp:33-42 | the constant 0xA001 has the constant term reversibility needs |
| ModbusSpec.ResidueIsZeroIff | middleware/src/modbus_module.cpp:33-52 | the checksum over any frame and two more bytes is zero exactly when those are the frame's checksum, low byte first |
| ChecksumMeaning.ModbusCrcIsRemainderIff | middleware/src/modbus_module.cpp:33-42 | for every frame a number is its checksum if and only if it is the remainder of the frame times x^16, with the first 16 bits complemented, by x^16 + x^15 + x^2 + 1 |
| ChecksumMeaning.ModbusCrcOfDigits | middleware/src/modbus_module.cpp:33-42 | the checksum of "123456789" is 0x4B37 |
| ModbusSpec.RequestBytes | middleware/src/modbus_module.cpp:44-52 | the eight bytes of a request: slave, function 3, register and count with the high byte first, checksum with the low byte first |
| ModbusSpec.SealedHasNoResidue | middleware/src/modbus_module.cpp:44-52 | the residue of every frame with its own checksum is zero |
| ModbusSpec.DamagedFrameShows | middleware/src/modbus_module.cpp:33-52 | any burst of up to 16 bits in such a frame leaves a residue |
| ModbusSpec.RequestsTellApart | middleware/src/modbus_module.cpp:44-52 | requests are eight bytes without residue, and equal only for the same slave and register |
| ModbusImpl.ModbusModule.FoldInPlace | middleware/src/modbus_module.cpp:33-42 | the nested loops compute the register of the standard |
| ModbusImpl.ModbusModule.CrcOf | middleware/src/modbus_module.cpp:33-42 | the checksum of the first len bytes of the buffer |
| ModbusImpl.ModbusModule.BuildRequest | middleware/src/modbus_module.cpp:45-52 | the frame filled by index is the specified request |
| ModbusImpl.ModbusModule.ReadHoldingRegister | middleware/src/modbus_module.cpp:44-62 | the request goes out in RTU mode only; the value is 256 times the fourth byte plus the fifth of an answer of at least five bytes |
| ModbusImpl.ModbusModule.WriteCoil | middleware/src/modbus_module.cpp:64-70 | slave and address are remembered, the coil's value is not |
| ModbusImpl.ModbusModule.Tick | middleware/src/modbus_module.cpp:72-80 | a pending coil write goes out once, as a request to read a register |
| ConfigSpec.ParsePrinted | services/src/config_manager.cpp:43-51 | parsing undoes printing, for every list of pairs with separator-free keys and values |
| ConfigSpec.PrintedIsNoLonger | services/src/config_manager.cpp:43-51 | printing what was parsed gives nothing longer than the text |
| ConfigSpec.ArrivesIff | services/src/config_manager.cpp:33-54 | a printed list arrives complete and in order exactly when its text has at most 511 characters |
| ConfigSpec.LastOneWins | services/src/config_manager.cpp:23-27 | after setting any list of pairs a key reads its last value, or as before when it was not set, unless a later pair's value or metadata is stored under the same entry |
| ConfigSpec.AlwaysWinsIff | services/src/config_manager.cpp:23-27 | a key reads its last value for all values and all earlier contents if and only if no later key is its metadata key or has it as metadata key |
| ConfigSpec.MetaSettingLost | services/src/config_manager.cpp:38-54 | a text of two settings, printable and short enough, of which the first does not take effect |
| ConfigSpec.SettingsTakeEffect | services/src/config_manager.cpp:33-54 | every key of a printed list that fits the buffer reads its last value back from the storage, unless a later key gets in its way |
| ConfigSpec.SettingsReadBack | services/src/config_manager.cpp:23-51 | each such key reads back the last value set for it character by character with a NUL at the end, exactly when the caller's buffer holds both; getString() returns that value |
| ConfigImpl.ConfigManager.ApplyRemoteConfig | services/src/config_manager.cpp:33-36 | the buffer holds the first 511 characters of the text and stays terminated |
| ConfigImpl.ConfigManager.NextToken | services/src/config_manager.cpp:43-51 | cutting off a token in place splits the rest of the text into that token's pair and the pairs after it; no token exactly ends the text |
| ConfigImpl.ConfigManager.FindEquals | services/src/config_manager.cpp:45 | the first '=' of the token, or -1 |
| ConfigImpl.ConfigManager.HandleToken | services/src/config_manager.cpp:44-49 | a token with '=' is stored and announced as its pair, any other is dropped, and the text after it stays intact |
| ConfigImpl.ConfigManager.SetString | services/src/config_manager.cpp:23-27 | the value is stored with its terminator and the key announced |
| ConfigImpl.ConfigManager.ApplyPending | services/src/config_manager.cpp:38-54 | the pairs of the pending text are stored and announced, all of them, in order |
| ConfigImpl.ConfigManager.Tick | services/src/config_manager.cpp:56-58 | a pending text is applied once |

## Left out

- ESP-OTA branches, GPIO checks and partition lookups of the firmware cache and the bootloader: calls into ESP-IDF. A reboot is the bootloader's decision followed by `init`, whatever the mode. `entry()` ends with the mode it picks.
- Backend faults: the flash fails only when a call leaves it. A backend whose functions are not set, and the 2 GB limit of the int return codes (the flash is shorter than 2^31 bytes), are excluded.
- Sizes are 64 bits wide, as on the host; on a target with 32-bit sizes the end sector of an empty write at offset 0 is another one, with the same effect on any flash.
- `StorageManager` named regions and the single-sector erase: table lookups.
- `poolSize_`, which the source never looks at: the pool is 64 line buffers. A backend that fails inside the flash.
- Recovery transports (the answer to starting one is an input), progress callbacks and `RecoveryManager::init`, `run` and `tick`; the announcement of an image size enters as the `BeginImage` call.
- The scheduler's microsecond totals and tick and takt counters are unbounded numbers; the 32-bit overrun and skip counters wrap.
- A null module pointer: the registry refuses it before anything else happens.
- EventBusImpl.EventBus.DispatchQueued: for callbacks whose events have a rank that decreases from event to raised event; without one the loop need not end (`EchoEndsIff`), and the class excludes it. Every single call of a callback returns.
- Callbacks and modules that call the scheduler or the timers, or that drain the queue themselves; timers started or registered between the takts of a run.
- Timer move construction, assignment and destruction, `stop` and `reset`.
- ESP-IDF internals of the key-value store: limits on key length (15 characters in NVS, 39 in the metadata key buffer), types other than blobs and 32-bit words, failing opens and commits. A namespace is a map that exists once it was opened for writing.
- What a device does after a null read: the call returns with `fault` set, and the theorems about boots speak of boots that get past the check.
- The host build of `NvsManager`, whose backup, restore and verification do nothing, the typed getters and setters, and `eraseAll`.
- Modbus TCP, UART set-up, event publication and the response's own fields; `sent` records the bytes handed to the serial line.
- Logging, diagnostics, statistics printing, telemetry, script engine, MQTT, WiFi, BLE and web server.
