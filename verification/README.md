# MiCO: transfer, update, configuration and supervision, verified

A Dafny model of the parts of the MiCO SDK in which a mistake bricks a module, loses its settings or leaks its memory:

* **YMODEM** (`YmodemFraming`, `YmodemHeader`, `YmodemNumerals`, `YmodemSender`, `YmodemReturn`, `YmodemReceiver`,
  `YmodemStops`, `YmodemLink`, `YmodemTheorems`, `YmodemRoom`, `YmodemEnding`, `YmodemLoss`): both ends of the file transfer of
  the bootloader, as programs and as state machines, each by itself over every conversation and both composed over a line
  that cuts and loses bursts and loses replies. The protocol is that of the XMODEM/YMODEM Protocol Reference by Chuck Forsberg, 1024-byte
  blocks of section 4.3 and the batch header block of chapter 5.
* **The configuration store** (`ConfigStore`, `ConfigRecovery`, `ConfigUser`, `ConfigBoot`): two flash copies guarded by a
  CRC-16, written in a fixed order and repaired at boot.
* **The over-the-air install** (`OtaUpdate`, `OtaRestart`, `OtaRequest`, `OtaChecksum`, `OtaConfig`): record check, chunked copy
  with read-back, clearing of the record, erasing of the staging area.
* **The RF driver copy** (`RfDriverCopy`) of the MiCOKit-3165 bootloader, a second user of the same flash and copy lemmas.
* **The UART-to-socket bridge** (`SppBridge`, `SppMemory`, `SppDelivery`, `SppBudget`, `SppProtocol`): reference-counted messages fanned
  out to bounded queues by interleaving threads.
* **The system monitor** (`SystemMonitor`): deadlines in wrapping 32-bit milliseconds.
* **The notification registry** (`Notifications`): linked lists spliced in place.

`Bytes`, `Checksums`, `Tables` and `FlashMemory` are what they share. `dafny verify dfyconfig.toml` checks everything.

## How to read it

Code that changes state is a class or a method over arrays, as in the original, and each such method is proved equal to a
function on values (`Run`, `RunUpdate`, `ReadConfiguration`, `RunCopy`, `Step`, ...). The properties are proved about those
functions. What a function means is said by lemmas that do not use it: `YmodemStops`, `YmodemReturn`, `OtaRequest`, `ConfigBoot`
and the later half of `SystemMonitor` describe inputs, outputs and stored bytes by their values and histories by the events in
them.

*Flash.* `FlashMemory.Flash` programs by clearing bits and erases by setting bytes to 0xFF, byte by byte. Its `power` is the
number of bytes after which the supply fails; from then on nothing changes any more. Every statement that holds for all
`power` therefore holds for every power-cut point, in the middle of a write as well as of an erase. Sectors have 4 KB, the
SPI flash's (`Platform/MCU/STM32F4xx/peripherals/platform_flash.c:327-346`), and the two parameter partitions are one sector
each (`Board/MiCOKit-3165/platform.c:286-301`). An operation that is not cut succeeds.

*YMODEM line.* What one sending call puts out is a burst. Bursts and reply bytes arrive in order; any burst may lose any part
of its tail or be lost, any reply byte may be lost, and both sides may time out at any moment. Payload bytes are not
corrupted: the receiver never looks at the packet checksum. `YmodemSender.Transmit` and `YmodemReceiver.Reception.ReceiveAll`
are the two C functions; `YmodemLink` runs the machines they are proved equal to. The fields `index` and `eots` of a
`Link` are bookkeeping that no side can see.

*Checksums.* The CRC-16 of `libraries/utilities/CheckSumUtils.c` is proved to be the remainder of the message modulo
x^16 + x^12 + x^5 + 1 (`Checksums.CrcIsRemainder`); CRC-8 is that of the same file for whatever table it is given.
`Ymodem_Transmit` sends CRC-16, and what it sends passes the test of a receiver that makes one (`YmodemReturn.BurstsReadable`);
`Ymodem_Receive` makes none, so the composed machines work with any checksum. The statements about the configuration store
hold for every checksum that is a function of the configuration, CRC-16 (`ConfigStore.ConfigCrc`) among them. That a torn copy of the configuration does not match its checksum, and that different configurations of one run
have different checksums, are assumptions; they appear as the predicates `Detects` and `Distinct` in the statements that need
them and nowhere else.

*Threads.* In the bridge each take, free, push, pop and each critical section of the queue mutex is one atomic step, and all
interleavings of these steps are covered. The C code frees outside the mutex, with a decrement that is not atomic; that it
behaves as if it were is an assumption. A sweep of the system monitor is one step, which its priority 0 provides.

## Where code and intention differ

The code is modelled as it is. Where something that one would expect is not so, the exact condition is proved:

* `Ymodem_Transmit` can return 0 while `Ymodem_Receive` still waits, when the end of the file had to be announced more than
  once. `AgreementExactly`: for any acceptable file both sides always agree after one announcement, and for each number from
  two to ten they may not; there are never more.
* The receiver answers a repeated block with NAK. An acknowledgement of the opening block or of a data block that is lost
  on the line is therefore fatal: no number of retries gets the sender past it (`LostAckIsFatal`).
* `Int2Str` stores no terminator and the sender does not end the size with a space, so the size field goes on with what the
  stack held. `HarmlessLeftover`: all sizes are read back if and only if that byte is zero or a space.
* The receiver accepts files one byte larger than its room, and does not count the padding. `ArrivesExactly` says when the
  file arrives intact: what is beyond the last sector that the erase touches must be zero. With a room of whole sectors this
  comes down to a file no larger than the room (`RoomOfWholeSectors`); for other rooms padding can do harm (`RoomMeans`).
* When the main copy of the configuration is bad and the backup good, the user configuration is rebuilt from the bad main
  copy (`MICO/system/mico_system_para_storage.c:246-264`): `user_backup_data` is read and never used. The system half is
  proved as written, the user half for the variant `mended`, which copies it. As written a boot after a cut can load a
  mixture of old system and new user configuration (`OldSystemNewUser`); `CutThenBoot` and `UserBackExactly` say what it
  loads for every cut of an update, `UserAfterUpdate` for every cut while the boot record is cleared, and `HealsExactly`
  when it is over.
* `checkcrc` returns `kNoErr` on a mismatch (`Bootloader/Update_for_OTA.c:91-99`): what is installed does not depend on the
  recorded checksum (`SameWhateverChecksum`, `WrongChecksumInstalled`); again there is a variant `mended`.
* A record with checksum 0xFFFF and a length between those of the staging area and the destination destroys the destination at
  every boot: `SucceedsExactly`, `OverlongResult`. With the partition table of the MiCOKit-3165 there are such lengths:
  `MicoKitOverlong`.
* After a power cut inside the erase of the record it is inert but need not be blank, for ever: `BlankExactly`.
* The clients of the bridge are not independent: the byte budget is shared, and a message that comes while it is used up,
  by whichever client, is dropped for all (`SppBudget.OthersMatter`). `ArrivalReaches` has the exact condition; a single
  client with packages of up to 1024 bytes never runs into it (`OneClientIsNeverRefused`).
* Registering a callback twice loses the node allocated for it: last clause of `NotifyRegister`.
* A permitted delay so large that delay plus sweep period reach 2^32 ms can be missed unnoticed: `SureToBeNoticed`.

## Model

| member | source | states |
|---|---|---|
| FlashMemory.Flash.WriteAt | Platform/MCU/mico_platform_common.c:572-604 | Programming clears bits in address order; what is left when the supply fails is exactly the programmed front of the data; the offset moves past the data on success; a range outside the partition is refused without effect |
| FlashMemory.Flash.EraseAt | Platform/MCU/mico_platform_common.c:539-570 | Erasing sets every byte of every touched sector to 0xFF, in address order, and is cut at any byte; a range outside the partition is refused |
| FlashMemory.Flash.ReadAt | Platform/MCU/mico_platform_common.c:606-638 | A read inside the partition returns its bytes and moves the offset past them; nothing is changed |
| FlashMemory.WriteSplit | Bootloader/Update_for_OTA.c:215-239 | Two adjacent writes are one long write, at every point at which the supply can fail |
| FlashMemory.CutWrite | Bootloader/Update_for_OTA.c:215-239 | A write that was cut leaves what any longer write cut at the same byte leaves |
| FlashMemory.EraseAll | Bootloader/Update_for_OTA.c:210-212 | Erasing a whole partition, cut or not, leaves an erased front of the length the supply allowed and the rest as it was, for partition lengths that are no whole number of sectors too |
| FlashMemory.EraseTouches | Platform/MCU/mico_platform_common.c:539-570 | An erase that is not cut sets exactly the bytes of the 4096-byte sectors that the request touches |
| FlashMemory.ReadsBack | Bootloader/Update_for_OTA.c:228-236 | What is programmed on erased cells is what is read back |
| Bytes.XorIsBitwise | libraries/utilities/CheckSumUtils.c:71 | The exclusive or of the checksums, bit by bit |
| Bytes.AndIsBitwise | Platform/MCU/mico_platform_common.c:572-604 | What programming makes of a cell, bit by bit: a bit is set afterwards if and only if it was and is to be |
| Bytes.ComplementIsXor | Bootloader/ymodem.c:132 | The complement that the receiver tests is the exclusive or with 0xFF |
| Checksums.UpdateCRC16 | libraries/utilities/CheckSumUtils.c:59-77 | The shifting loop over 32-bit registers, with the bit set in front of the byte that ends it, computes eight turns of the 16-bit register |
| Checksums.CrcIsRemainder | libraries/utilities/CheckSumUtils.c:59-98 | The CRC-16 of every message is the one remainder that division of the message, first bit leading and sixteen zero bits behind, by x^16 + x^12 + x^5 + 1 leaves: existence and uniqueness |
| Checksums.Divisible | libraries/utilities/CheckSumUtils.c:59-98 | Running the CRC-16 over a message and two more bytes gives zero if and only if these are its CRC-16, high byte first |
| Checksums.Crc8Closed | libraries/utilities/CheckSumUtils.c:43-51 | The table is what the CRC-8 makes of single bytes, and a message with its CRC-8 behind it comes out as the first entry |
| Checksums.UpdateConcat | libraries/utilities/CheckSumUtils.c:84-90 | The CRC-16 of two pieces taken one after the other is that of the whole |
| Checksums.Crc8Concat | libraries/utilities/CheckSumUtils.c:43-51 | The CRC-8 of two pieces taken one after the other is that of the whole |
| YmodemFraming.ReceivePacket | Bootloader/ymodem.c:89-138 | The status, length and buffer that come back mean what Parse says of the burst: block with number and payload, end of file, abort by either side, or error; the packet buffer is overwritten in front even by a burst that is cut short |
| YmodemFraming.FrameChecks | Bootloader/ymodem.c:437-444 | A sent block byte by byte: start byte 0x01 or 0x02 for 128 or 1024 bytes, number, complement, payload, and two bytes that make the CRC-16 over payload and them zero |
| YmodemFraming.ParseFrame | Bootloader/ymodem.c:89-138 | Reading a sent block back gives its sequence number and payload, for both block sizes and every number |
| YmodemFraming.ParseCutFrame | Bootloader/ymodem.c:124-138 | A block that lost any part of its tail, be it one checksum byte, is never taken for a block |
| YmodemFraming.PreparePacket | Bootloader/ymodem.c:327-354 | The packet buffer holds header and payload of the next block, the last block filled up with 0x1A, and is unchanged behind it |
| YmodemFraming.ChunksCover | Bootloader/ymodem.c:478-541 | The payloads of all blocks put together are the file followed by fewer than 128 bytes of 0x1A up to a multiple of 128 |
| YmodemFraming.ChunksCount | Bootloader/ymodem.c:478-541 | A file of n bytes takes floor(n/1024) + ceil((n mod 1024)/128) blocks |
| YmodemFraming.ChunksArePayloads | Bootloader/ymodem.c:489-498 | Every block has 128 or 1024 bytes |
| YmodemHeader.Int2Str | libraries/utilities/StringUtils.c:144-163 | The decimal digits of the number, without leading zeros, are stored in front of the buffer, and nothing behind them: no terminator |
| YmodemHeader.Str2Int | libraries/utilities/StringUtils.c:165-246 | Whether the text is a number and which: hexadecimal with prefix, decimal with suffixes k and m, 32-bit wrap-around, at most eleven characters; otherwise the old value stays |
| YmodemNumerals.NumbersExactly | libraries/utilities/StringUtils.c:165-246 | The texts taken for numbers, and no others: up to ten decimal digits that end with the text or with k, K, m or M, or 0x and one to eight hexadecimal digits; their place value, times 1024 or 1024^2, kept in 32 bits with a sign; anything else leaves the old value |
| YmodemNumerals.DecimalIsValue | libraries/utilities/StringUtils.c:144-163 | The digits that are printed have the place value of the number |
| YmodemHeader.NumberOfDigits | libraries/utilities/StringUtils.c:165-246 | Parsing the terminated decimal digits of any number below 10^9 gives the number: printer and parser are inverse |
| YmodemHeader.PrepareInitialPacket | Bootloader/ymodem.c:291-319 | The opening block holds the name up to its terminator, a zero, the size text up to whatever terminator the stack holds, and zeros to the end of the block; nothing behind is touched |
| YmodemHeader.HeaderLayout | Bootloader/ymodem.c:184-195 | Where the receiver finds name and size text of a fitting header, whatever is behind the block in its buffer |
| YmodemHeader.HeaderRoundTrip | Bootloader/ymodem.c:184-195 | The receiver reads back name and size of every header that fits, for every size below 10^9 and every former buffer content, if the byte that the size buffer holds behind the digits is a terminator or a space |
| YmodemHeader.HarmlessLeftover | Bootloader/ymodem.c:294-313 | Exactly those two values of that byte are harmless: all sizes are read back if and only if it is zero or a space |
| YmodemSender.SendUntilAck | Bootloader/ymodem.c:434-465 | A retry loop yields exactly the acknowledgement, error count, unread replies and copies of the burst that Retry determines; a strict loop counts wrong replies, the others only silence |
| YmodemSender.RetryIsRun | Bootloader/ymodem.c:486-539 | A retry loop is what the sender machine does while it stays in one phase, in return value and in everything it puts on the line |
| YmodemReturn.BurstsReadable | Bootloader/ymodem.c:420-630 | Over every conversation nothing goes out but 0x04 and blocks of 133 or 1029 bytes with the right start byte, a complemented number and a CRC-16 that checks |
| YmodemReturn.ClosingBlock | Bootloader/ymodem.c:565-587 | The block that ends the conversation byte by byte, checksum included |
| YmodemReturn.RetryAcked | Bootloader/ymodem.c:486-539 | A retry loop ends behind the first 0x06 if fewer than ten errors come before it, with one burst for each answer up to it; silence is an error in every loop, a wrong byte only in those for data and end of file |
| YmodemReturn.RetryWell | Bootloader/ymodem.c:486-539 | There is no other way for a retry loop to end well |
| YmodemReturn.TransmitReturns | Bootloader/ymodem.c:412-631 | Over every conversation and every file: Ymodem_Transmit returns 0 if and only if the opening block is acknowledged before ten silences, one more byte is taken off the line, every block and the end of file are acknowledged at the tenth answer at the latest, and the closing block before ten silences, nine if the last end of file is not acknowledged; otherwise it returns 10 |
| YmodemSender.DataBurstsBounded | Bootloader/ymodem.c:478-541 | By the measure (blocks left, ten minus errors) no block is sent more than ten times |
| YmodemSender.TransferBursts | Bootloader/ymodem.c:478-541 | Whatever is replied, the data phase puts at most ten times floor(n/1024) + ceil((n mod 1024)/128) blocks on the line |
| YmodemSender.SendFile | Bootloader/ymodem.c:471-541 | The data loop, with its 16-bit block counter, is a stretch of the run of the sender machine from the first block to the end of the file |
| YmodemSender.SendEnding | Bootloader/ymodem.c:542-630 | End of file, closing block and last end of file, including the loop that is left after one turn because its flag is still set, are the rest of that run |
| YmodemSender.Transmit | Bootloader/ymodem.c:412-631 | Ymodem_Transmit returns the value and puts out the bursts of the sender machine that YmodemLink lets run against the receiver, for every sequence of replies; the CRC-16 goes out high byte first (FrameChecks, BurstsReadable) |
| YmodemReceiver.Reception.Receive | Bootloader/ymodem.c:154-272 | One burst changes the local variables and the flash, and is answered, exactly as the receiver machine says, in all branches; YmodemStops has what that machine does with every burst and how it ends |
| YmodemReceiver.Reception.ReceiveAll | Bootloader/ymodem.c:145-273 | The two nested loops are the receiver machine run over all bursts |
| YmodemReceiver.EraseArea | Bootloader/ymodem.c:211 | The offered room is erased completely when it is inside the device, and the device keeps its size |
| YmodemStops.Reads | Bootloader/ymodem.c:89-138 | What every burst means to the receiver, by its bytes |
| YmodemStops.ReceiveReturns | Bootloader/ymodem.c:145-273 | Over every conversation: what Ymodem_Receive returns and for which burst, causes and return values if and only if: 0 for CA CA, -3 for A or a, 0 for the 21st damaged burst in a row behind an accepted opening block and never before one, the announced size for an empty opening block, -1 for an announced size above the room and one byte, -2 for a block beyond the device |
| YmodemStops.EndingLeaves | Bootloader/ymodem.c:169-266 | Whichever it is, the flash stays as it was (untouched altogether when the first file is too large), the last bytes sent are one acknowledgement or two cancels, and nothing happens afterwards |
| YmodemStops.ReceiveGoesOn | Bootloader/ymodem.c:165-270 | As long as it goes on: the answer to every burst, and what it does to flash, position, packet count, name and size; an accepted opening block leaves exactly the announced name and size, and the room erased |
| YmodemStops.RoomErased | Bootloader/ymodem.c:207 | The accepted opening block erases the sectors of 4096 bytes that the room touches, and no others |
| YmodemReceiver.RunSplit | Bootloader/ymodem.c:154-272 | A conversation can be taken burst by burst |
| YmodemLink.PktNoIsPosition | Bootloader/ymodem.c:173 | The byte on the line is the block's position modulo 256, although the sender counts in 16 bits and the receiver in 32 |
| YmodemLink.ParseExpected | Bootloader/ymodem.c:173-176 | What the receiver makes of each burst of the conversation, whole or cut |
| YmodemLink.KeepsStep | Bootloader/ymodem.c:152-271 | Every event keeps the invariant: sending, delivery, replies, timeouts on either side, abort, cutting or losing any burst and losing any reply |
| YmodemLink.KeepsRun | Bootloader/ymodem.c:152-271 | ... and so does every run |
| YmodemTheorems.InStepAlways | Bootloader/ymodem.c:152-271 | In every run, until the end of the file, the receiver is level with the sender or one block ahead, every burst under way is the block awaited or the one before, and the flash holds a gap-free, duplicate-free prefix of the padded file |
| YmodemTheorems.TransferCorrect | Bootloader/ymodem.c:412-631 | If Ymodem_Transmit returns 0 then, whatever was lost on the way, the file was acceptable, the flash is what the erase of the offered room and the programming of the padded file make of it, the receiver has noted the name and the size that were announced, and if the end of the file was announced once Ymodem_Receive returned its size; YmodemRoom and YmodemEnding make both halves exact |
| YmodemEnding.EotsBounded | Bootloader/ymodem.c:545-558 | In no run is the end of the file announced more than ten times |
| YmodemEnding.SenderCanFinishAlone | Bootloader/ymodem.c:545-602 | For every acceptable file and every number of announcements from two to ten there is a run in which Ymodem_Transmit returns 0 after that many while Ymodem_Receive still waits for the closing block |
| YmodemEnding.AgreementExactly | Bootloader/ymodem.c:545-630 | For every file and every number of announcements: in all runs in which Ymodem_Transmit returns 0 after so many, Ymodem_Receive has returned the size of the file, if and only if the number is none of two to ten or the file is never accepted |
| YmodemLoss.LostAckIsFatal | Bootloader/ymodem.c:173-176 | Once the receiver is a block ahead and the acknowledgement of that block is gone, no continuation moves the sender on, and none succeeds: repetitions are answered by NAK |
| YmodemLoss.LosingTheAck | Bootloader/ymodem.c:434-539 | Losing the acknowledgement of an opening or data block on the line is enough for that |
| YmodemLoss.OpeningAckLost | Bootloader/ymodem.c:434-465 | It can happen to every file with the first block, after which no continuation succeeds |
| YmodemRoom.RoomForFile | Bootloader/ymodem.c:201-241 | For every address and every room: the padded file survives over every former flash content if and only if all its bytes beyond the last sector the erase touches are zero |
| YmodemRoom.FileArrives | Bootloader/ymodem.c:145-273 | In every run in which Ymodem_Transmit returns 0 the flash holds exactly the bytes of the file followed by fewer than 128 bytes of 0x1A, and the receiver its name and size, if that is so |
| YmodemRoom.ArrivesExactly | Bootloader/ymodem.c:145-273 | Over all former flash contents and all runs the file arrives in this sense if and only if all bytes beyond the erased sectors are zero or the file is never accepted |
| YmodemRoom.RoomMeans | Bootloader/ymodem.c:201-211 | That is: the blocks end inside the erased sectors; the only other case is a file one byte larger than the room, without padding, that ends in a zero just behind a sector |
| YmodemRoom.RoomOfWholeSectors | Bootloader/ymodem.c:201-211 | With a room of whole sectors it is simply that the file is no larger than the room, so that the extra byte the receiver allows always does harm and padding never does |
| YmodemRoom.WholeSectorsEnd | Bootloader/ymodem.c:211 | With whole sectors the erase reaches exactly to the end of the offered room |
| YmodemTheorems.DataRounds | Bootloader/ymodem.c:478-541 | From any block on, rounds without faults carry the rest of the file across |
| YmodemTheorems.FaultFreeTransfer | Bootloader/ymodem.c:412-631 | Transfers do succeed: there is a run for every announced file that fits in which both sides return and agree |
| YmodemTheorems.PreparedHeaderAnnounces | Bootloader/ymodem.c:431-432 | What Ymodem_PrepareIntialPacket prepares for a non-empty name and a size below 10^9 that fit is an announcement that all the above applies to |
| ConfigStore.ConfigCrcIsCrc16 | MICO/system/mico_system_para_storage.c:79-83 | The checksum of the two configurations in turn is the CRC-16 of them put together |
| ConfigStore.CopyFrame | MICO/system/mico_system_para_storage.c:85-99 | Writing a copy touches no other partition, cut or not |
| ConfigStore.CopyDone | MICO/system/mico_system_para_storage.c:85-99 | A copy that is not cut leaves exactly boot table, system configuration, user configuration at 0x400 and checksum at 0xE00, and 0xFF everywhere else, whatever was there before and although only the content is asked to be erased |
| ConfigStore.PageHolds | MICO/system/mico_system_para_storage.c:201-215 | ... and reads back as what was written |
| ConfigStore.Context.InternalUpdateConfig | MICO/system/mico_system_para_storage.c:68-126 | internal_update_config leaves medium and status of InternalUpdate: main copy, read-back of the checksum, backup |
| ConfigStore.Context.ContextRestore | MICO/system/mico_system_para_storage.c:128-153 | mico_system_context_restore: defaults with the current seed into RAM and both copies |
| ConfigStore.Context.Update | MICO/system/mico_system_para_storage.c:325-337 | mico_system_context_update: seed counted up, then both copies |
| ConfigStore.Context.MICOReadConfiguration | MICO/system/mico_system_para_storage.c:178-323 | MICOReadConfiguration: RAM, seed, medium and status of ReadConfiguration in every combination of good and bad copies, with the magic number check; kNoMemoryErr and nothing else when a buffer cannot be allocated; ConfigBoot spells that function out |
| ConfigStore.Context.RepairCopies | MICO/system/mico_system_para_storage.c:192-295 | Reading both copies, comparing checksums and rebuilding the bad or different one; which one, from what and with what checksum is ConfigBoot.RepairExactly |
| ConfigRecovery.UpdateResult | MICO/system/mico_system_para_storage.c:68-126 | What an update leaves at every point at which power can fail: both copies; the backup as it was when the checksum is zero; or, when cut, the backup as it was or a complete main copy |
| ConfigRecovery.UpdateIsSafe | MICO/system/mico_system_para_storage.c:68-126 | From a booted state the main copy is rewritten only behind a complete backup and the backup only behind a complete main copy, and one copy is complete afterwards, cut or not |
| ConfigRecovery.RepairResult | MICO/system/mico_system_para_storage.c:231-295 | Recovery at boot does not touch a good main copy, nor a good backup behind a bad main copy, and when not cut leaves the copies it should |
| ConfigRecovery.BootIsSafe | MICO/system/mico_system_para_storage.c:178-308 | A boot cut anywhere, also in its own recovery, leaves a complete copy; one not cut leaves a complete backup; no copy is rewritten but behind the other |
| ConfigRecovery.BothBad | MICO/system/mico_system_para_storage.c:234-239 | When both copies are bad the defaults are restored: empty boot table, default system half with the seed in its last four bytes, and the user half of the application or of the bad main copy; and both copies hold them |
| ConfigRecovery.AlwaysOneCopy | MICO/system/mico_system_para_storage.c:68-308 | Over every run of power-ups, changes and power cuts at any byte one copy is always complete, and the backup is while the device is up; nothing is assumed about the checksum |
| ConfigRecovery.UpdateLoads | MICO/system/mico_system_para_storage.c:68-126 | A boot after an update cut anywhere would load the old or the new configuration; the new one on success, the old one on kWriteErr; assuming that a torn copy does not match its checksum |
| ConfigRecovery.UncutUpdateDetects | MICO/system/mico_system_para_storage.c:68-126 | What is assumed of the checksum is about torn copies only: it holds of every update that is not cut |
| ConfigRecovery.UncutRepairDetects | MICO/system/mico_system_para_storage.c:231-295 | ... and of every recovery that is not cut |
| ConfigRecovery.SavedIsFaithful | MICO/system/mico_system_para_storage.c:68-126 | What a successful save leaves is a state from which NeverAMixture and AlwaysOneCopy apply |
| ConfigRecovery.BootLoads | MICO/system/mico_system_para_storage.c:178-308 | A boot, cut or not, does not change what is loaded, except to the defaults when the magic number is wrong |
| ConfigRecovery.NeverAMixture | MICO/system/mico_system_para_storage.c:68-308 | Over every run without checksum collisions the configuration a boot would load is the one last saved or loaded with success or one whose saving was interrupted since: the system half as written, both halves when the recovery also copies the user data from the backup |
| ConfigBoot.RepairExactly | MICO/system/mico_system_para_storage.c:231-295 | The first half of a boot by the bytes of the two copies: complete and equal in checksum, nothing is written; main complete, the backup is rewritten from it; only the backup complete, the main copy is rewritten with an empty boot table, the system half of the backup, the user half read from the bad main copy (mended: from the backup) and the checksum of the backup; neither, the defaults are written to both. Pages are given by offset, and everything else in them is 0xFF |
| ConfigBoot.MagicExactly | MICO/system/mico_system_para_storage.c:297-312 | The second half: the seed comes from the last four bytes of the system half, 0xFFFFFFFF counting as zero; without the bytes 65 21 3E A4 before them the defaults with that seed replace everything in RAM and in both copies |
| ConfigBoot.InStepAfterBoot | MICO/system/mico_system_para_storage.c:231-312 | Whatever the copies were, a boot that reports success leaves a complete backup and a main copy that, if complete, has the same checksum |
| ConfigBoot.CountedExactly | MICO/system/mico_system_para_storage.c:325-335 | What mico_system_context_update puts into RAM: the seed, counted up in 32 bits, in the last four bytes of the system half, and nothing else |
| ConfigBoot.SavedExactly | MICO/system/mico_system_para_storage.c:68-119 | An update that reports success has laid out this configuration, byte by byte, in both copies |
| ConfigBoot.CutBehindMain | MICO/system/mico_system_para_storage.c:68-119 | An update whose supply lasts for the main copy and no byte longer leaves the new main copy and the old backup |
| ConfigBoot.ResyncedByBoot | MICO/system/mico_system_para_storage.c:270-295 | The next boot that is not cut loads the new configuration and brings the backup up to date: both copies hold it, unless the old backup was complete with the very same checksum |
| ConfigRecovery.SeedRoundTrip | MICO/system/mico_system_para_storage.c:325-330 | The seed written into the system configuration is read back, and the magic number is not disturbed |
| ConfigRecovery.UpdateThenBoot | MICO/system/mico_system_para_storage.c:178-337 | After a successful update the next boot loads boot table, system and user configuration and seed as saved, and writes nothing |
| ConfigRecovery.SecondBoot | MICO/system/mico_system_para_storage.c:231-308 | A second boot after one that found a good main copy or restored the defaults loads the same context and writes nothing |
| ConfigRecovery.RecoveryHeals | MICO/system/mico_system_para_storage.c:246-264 | Recovery from the backup leaves a good main copy if and only if, as written, the user bytes of the bad main copy give the checksum of the backup |
| ConfigRecovery.HealsExactly | MICO/system/mico_system_para_storage.c:178-308 | After any number of boots since the main copy was lost it is good again under exactly that condition, or when the backup had no magic number and gave way to the defaults; otherwise every boot finds it bad and recovers again |
| ConfigRecovery.RecoveredUser | MICO/system/mico_system_para_storage.c:246-264 | As written, a boot that finds the main copy bad takes its user bytes all the same; which cuts leave the saved ones there is the subject of ConfigUser |
| ConfigRecovery.UserHalfLost | MICO/system/mico_system_para_storage.c:246-264 | A power cut just behind the erase of the main copy makes the next boot load the old system configuration with a blank user configuration; the mended recovery loads both |
| ConfigUser.CutMain | MICO/system/mico_system_para_storage.c:68-99 | What an update leaves at every point at which power can fail before its main copy is complete: the backup as it was, and in the main copy the old user bytes with an erased front, or 0xFF, or a front of the new ones followed by 0xFF, depending on the point |
| ConfigUser.CutThenBoot | MICO/system/mico_system_para_storage.c:246-264 | The boot after such a cut, as written, combines the old system configuration with exactly these user bytes |
| ConfigUser.UserBackExactly | MICO/system/mico_system_para_storage.c:246-264 | On a device whose copies held the same user configuration that boot brings it back if and only if it is blank as far as the erase got, or agrees with the new one as far as that was written and is blank behind |
| ConfigUser.OldSystemNewUser | MICO/system/mico_system_para_storage.c:246-264 | Cut just before the checksum, every update whose checksum is not 0xFFFF makes the next boot load the old system configuration with the new user configuration |
| OtaUpdate.Updater.CheckCrc | Bootloader/Update_for_OTA.c:58-100 | checkcrc accepts every image that can be read in full (or has recorded checksum 0xFFFF) whatever its checksum; the mended variant also compares |
| OtaUpdate.Updater.UpdateLogCheck | Bootloader/Update_for_OTA.c:102-136 | The record is classified in the order of the code: blank, tag, start address, type, length, checksum; by its bytes in OtaRequest.AsksExactly and Refusals |
| OtaUpdate.Updater.StagingUsed | Bootloader/Update_for_OTA.c:170-193 | The scan reports exactly whether any staged byte is not 0xFF, including the last short read behind which bytes of the chunk before are looked at again |
| OtaUpdate.Updater.CopyChunk | Bootloader/Update_for_OTA.c:228-238 | One chunk is read, written, read back after going back, and accepted exactly if it compares equal; both offsets have moved by its length |
| OtaUpdate.Updater.CopyImage | Bootloader/Update_for_OTA.c:202-239 | The copy loop moves exactly `length` bytes, equal to one long write at every point at which power can fail; an image longer than the staging area fails after its last whole chunk |
| OtaUpdate.Updater.ClearBootRecord | Bootloader/Update_for_OTA.c:243-253 | Parameter1 is rewritten with the first 24 bytes erased and everything else as it was |
| OtaUpdate.Updater.Update | Bootloader/Update_for_OTA.c:139-265 | update() leaves the medium and status of RunUpdate on every path |
| OtaUpdate.ClearResult | Bootloader/Update_for_OTA.c:243-253 | Wherever the clearing is cut, Parameter1 is as it was or begins with an erased byte; when not cut, only the record is erased |
| OtaRestart.StagingBlank | Bootloader/Update_for_OTA.c:170-260 | Whenever update() returns kNoErr the staging area is entirely 0xFF, on the install path and on the other |
| OtaRestart.SucceedsExactly | Bootloader/Update_for_OTA.c:139-265 | An uninterrupted run succeeds if and only if the partitions exist and no record asks for an absent partition or an image longer than the staging area |
| OtaRestart.OverlongResult | Bootloader/Update_for_OTA.c:202-239 | Such an image destroys the destination, is never installed, and the record stays: the next run does the same |
| OtaRestart.OverlongIsUnchecked | Bootloader/Update_for_OTA.c:71-99 | This takes a recorded checksum of 0xFFFF |
| OtaChecksum.ChecksumIgnored | Bootloader/Update_for_OTA.c:91-136 | As written, changing the recorded checksum of an image that can be read does not change whether and where it is to be installed |
| OtaChecksum.SameWhateverChecksum | Bootloader/Update_for_OTA.c:139-265 | As written, an uninterrupted install ends in the same state whatever checksum is recorded |
| OtaChecksum.WrongChecksumInstalled | Bootloader/Update_for_OTA.c:91-99 | For every image and every wrong checksum but 0xFFFF there is a medium on which update() installs it and reports success, and the mended variant leaves the destination alone |
| OtaChecksum.ChecksumOfInstalled | Bootloader/Update_for_OTA.c:91-99 | The mended variant asks for exactly those of the readable images that have the recorded checksum, or 0xFFFF |
| OtaChecksum.MicoKitOverlong | Board/MiCOKit-3165/platform.c:262-285 | With the partition sizes of the MiCOKit-3165 the overlong images are exactly those of more than 0x70000 and up to 0x74000 bytes |
| OtaRestart.UninterruptedInstall | Bootloader/Update_for_OTA.c:202-260 | An install that is not cut leaves the image on erased cells, the record cleared, the staging area blank, and every other partition and the rest of Parameter1 as they were |
| OtaRestart.OnlyThreePartitions | Bootloader/Update_for_OTA.c:139-265 | Cut or not, update() changes no partition but destination, Parameter1 and staging area, and without a request only the staging area |
| OtaRequest.AsksExactly | Bootloader/Update_for_OTA.c:102-136 | Which records ask for an update and for which: tag byte 17 is 0x55, the first four bytes are the address of the staging area, byte 16 is 0x42, 0x41 or 0x44 for bootloader, application or RF firmware, the length fits there, and the checksum is 0xFFFF or the image can be read; these and no others |
| OtaRequest.Refusals | Bootloader/Update_for_OTA.c:102-136 | For which reason any other record is turned down, by its bytes |
| OtaRequest.InstallsWhatItNames | Bootloader/Update_for_OTA.c:139-265 | An update that is not cut leaves the staged bytes and 0xFF behind them in the partition that byte 16 names, 24 erased bytes in front of an otherwise unchanged Parameter1 and an erased staging area; every other partition is what it was |
| OtaRequest.StatusExactly | Bootloader/Update_for_OTA.c:139-265 | Which status update() returns, if and only if: kUnsupportedErr, kParamErr, cut, or success |
| OtaRequest.ErasesOnlyWhatIsUsed | Bootloader/Update_for_OTA.c:167-195 | Without a request a blank staging area is left alone, not a byte programmed or erased, and any other is erased |
| OtaRequest.RestartableExactly | Bootloader/Update_for_OTA.c:120-127 | The updates that can be restarted are those of type 0x41 and 0x44 whose image is staged |
| OtaRequest.NamedInTheEnd | Bootloader/Update_for_OTA.c:139-265 | For a record of type 0x41 or 0x44: after any number of cuts anywhere and one run that is not cut the partition that it names holds the image and every other one, apart from record and staging area, what it held at first |
| OtaRestart.ErasedFirstByte | Bootloader/Update_for_OTA.c:116-117 | A record whose first byte is erased asks for nothing, on any board whose staging area does not start at an address that ends in 0xFF |
| OtaRestart.InstallImageResult | Bootloader/Update_for_OTA.c:202-260 | At every crash point either record and staged image are byte for byte unchanged or the destination holds the image and the record is inert |
| OtaRestart.AlwaysRestartable | Bootloader/Update_for_OTA.c:202-260 | ... and so after any number of runs cut anywhere, for types A and D |
| OtaRestart.InstalledInTheEnd | Bootloader/Update_for_OTA.c:202-260 | Any number of crashes followed by one full run ends with the image installed, the staging area blank and no update requested |
| OtaRestart.TornRecord | Bootloader/Update_for_OTA.c:243-253 | A cut k bytes into the clearing leaves exactly the first k bytes of the record erased |
| OtaRestart.RecordInTheEnd | Bootloader/Update_for_OTA.c:243-253 | After any number of runs cut anywhere the front of the record is erased as far as the first run that came to it got, and nothing more ever is |
| OtaRestart.BlankExactly | Bootloader/Update_for_OTA.c:243-253 | So the record ends up blank if and only if everything behind the place where that run was cut was blank already |
| OtaRestart.TornForEver | Bootloader/Update_for_OTA.c:243-253 | In particular, after a cut before its tag is erased it is never blank, whatever runs follow |
| OtaConfig.ConfigKept | Bootloader/Update_for_OTA.c:248-252 | Clearing the record keeps stored configuration, its checksum and the validity of the copy |
| OtaConfig.ConfigSurvives | Bootloader/Update_for_OTA.c:139-265 | update() never touches the backup of the configuration store, and when not cut leaves contents and validity of its main copy as they were |
| OtaConfig.CutKeepsLoaded | Bootloader/Update_for_OTA.c:243-253 | Wherever update() is cut, also while it rewrites the main copy, a good backup remains and what a boot would load is unchanged, assuming that a torn copy does not match its checksum |
| OtaConfig.BootAfterUpdate | MICO/system/mico_system_para_storage.c:231-295 | The boot after a cut update loads the configuration from before it: the system half as written, both halves when mended |
| OtaConfig.UserAfterCut | Bootloader/Update_for_OTA.c:243-253 | The user bytes that the main copy holds for every point at which the clearing of the record is cut |
| OtaConfig.UserAfterUpdate | MICO/system/mico_system_para_storage.c:246-264 | The boot after such a cut, as written, combines the saved system configuration with exactly these user bytes, and brings the user configuration back if and only if it is blank as far as the erase got, or blank behind what was written back |
| RfDriverCopy.Copier.CopyChunks | Board/MiCOKit-3165/platform.c:519-534 | The chunked copy is one long write of the driver at every point at which power can fail |
| RfDriverCopy.Copier.SumUp | Board/MiCOKit-3165/platform.c:541-556 | The chunk-by-chunk CRC-8 is that of the whole partition |
| RfDriverCopy.Copier.InitPlatformBootloader | Board/MiCOKit-3165/platform.c:494-572 | The function leaves the medium and outcome of RunCopy: nothing to do, done, hung on a wrong checksum, or cut |
| RfDriverCopy.CopyResult | Board/MiCOKit-3165/platform.c:504-572 | At every crash point the temporary driver is untouched, and the tag is too unless the RF partition equals the driver and its checksum is right; uncut, the copy completes exactly when the checksum is right |
| RfDriverCopy.CopiedAsLaidOut | Board/MiCOKit-3165/platform.c:490-572 | In terms of a temporary place laid out as driver, filler and one checksum byte at its very end: after any number of cuts a full start has copied the driver and erased the tag if that byte is the CRC-8 of the driver, and otherwise hangs with the tag still zero; a tag byte other than zero means that nothing happens |
| RfDriverCopy.AlwaysOnTheWay | Board/MiCOKit-3165/platform.c:504-572 | ... and so after any number of starts cut anywhere |
| RfDriverCopy.CopiedInTheEnd | Board/MiCOKit-3165/platform.c:504-572 | After any number of cuts a full start leaves driver and cleared tag if and only if the checksum is right; otherwise it hangs with the tag still set |
| SppMemory.RetainKeeps | Demos/COM.MXCHIP.SPP/SppProtocol.c:114-117 | socket_msg_take keeps count and references equal |
| SppMemory.ReleaseKeeps | Demos/COM.MXCHIP.SPP/SppProtocol.c:119-128 | socket_msg_free gives up one reference, and frees the message and its bytes with the last |
| SppMemory.StepKeepsMemory | Demos/COM.MXCHIP.SPP/SppProtocol.c:65-182 | Every atomic step of every thread keeps the invariant on references and bytes |
| SppMemory.MemoryAlwaysOk | Demos/COM.MXCHIP.SPP/SppProtocol.c:65-182 | In every run the count of each live message is the number of queue places plus threads that hold it, and sockmsg_len is the sum of header and length over the live messages |
| SppMemory.NeverDangling | Demos/COM.MXCHIP.SPP/SppProtocol.c:114-128 | No freed message can be reached, from any queue, client or the UART thread |
| SppMemory.NoLeak | Demos/COM.MXCHIP.SPP/SppProtocol.c:155-182 | Once queues are empty and nothing is held every message has been freed and sockmsg_len is 0 |
| SppMemory.BudgetKept | Demos/COM.MXCHIP.SPP/SppProtocol.c:84-91 | The budget of 10 KB is exceeded by at most one message |
| SppDelivery.FifoOrder | Demos/COM.MXCHIP.SPP/SppProtocol.c:95-107 | What a bounded queue lets through is in order and without duplicates |
| SppDelivery.MissedExactly | Demos/COM.MXCHIP.SPP/SppProtocol.c:99-105 | A message is missed if and only if the queue held eight when its turn came |
| SppDelivery.StepKeepsDelivery | Demos/COM.MXCHIP.SPP/SppProtocol.c:65-182 | Every step keeps each queue equal to a bounded queue run on its own history, and that history free of gaps |
| SppDelivery.ClientReads | Demos/COM.MXCHIP.SPP/SppProtocol.c:95-110 | In every run each client reads, in order and without duplicates, the data of messages sent to the queues since it joined, and of these misses one if and only if its own queue was full when its turn came; which of the messages that come are sent at all is the subject of SppBudget |
| SppBudget.SentExactly | Demos/COM.MXCHIP.SPP/SppProtocol.c:73-92 | In every run the messages sent to the queues are exactly those that came, with a queue registered and the UART thread idle, while no more than 10 KB were in use and there was memory, in order |
| SppBudget.ArrivalReaches | Demos/COM.MXCHIP.SPP/SppProtocol.c:73-110 | What becomes of any message that comes while a client is registered and stays so: if the budget is used up or there is no memory the run is as if it had not come; otherwise the client gets it if and only if its own queue was not full |
| SppBudget.OthersMatter | Demos/COM.MXCHIP.SPP/SppProtocol.c:84-85 | So a client does depend on the others: with an empty queue and memory to spare it loses a message because another client has not read one larger than the budget |
| SppBudget.UsedBound | Demos/COM.MXCHIP.SPP/SppProtocol.c:84-91 | While the UART thread is idle no more bytes are in use than nine of the longest messages for every client that has not gone |
| SppBudget.BudgetSuffices | Demos/COM.MXCHIP.SPP/SppProtocol.c:84-85 | Hence nothing is refused for the budget as long as nine of the longest messages for every client fit into it |
| SppBudget.OneClientIsNeverRefused | Demos/COM.MXCHIP.SPP/SppProtocol.c:84-85 | In particular a single client with packages of up to 1024 bytes loses none for the budget |
| SppProtocol.Bridge.SocketMsgFree | Demos/COM.MXCHIP.SPP/SppProtocol.c:119-128 | The reference is given up; with the last one the cell is free and the bytes are returned |
| SppProtocol.Bridge.SppUartCommandProcess | Demos/COM.MXCHIP.SPP/SppProtocol.c:65-112 | A call that is not interleaved is exactly the atomic steps of the model, and is refused exactly when there is a queue and the budget or the memory is used up |
| SppProtocol.Bridge.SocketQueueCreate | Demos/COM.MXCHIP.SPP/SppProtocol.c:130-153 | The queue, empty, gets the first free of six slots and the others stay as they are; -1 if there is none, or if the operating system does not provide the queue, in which case nothing changes |
| SppProtocol.Bridge.SocketQueueDelete | Demos/COM.MXCHIP.SPP/SppProtocol.c:155-182 | The queue leaves its slot, if it is in one, and is drained: each message popped and freed once, by atomic steps of the model; -1 if it was in no slot |
| SystemMonitor.SinceIsElapsed | MICO/system/mico_system_monitor.c:72 | The 32-bit difference of two clock values is the elapsed time modulo 2^32, and the elapsed time itself within one turn |
| SystemMonitor.MissedIsFatal | MICO/system/mico_system_monitor.c:59-115 | An activity that missed its deadline stays late whatever check-ins follow, the watchdog is not reloaded any more and the next sweep trips, across wrap-around, for less than 2^32 ms of silence and unless it is registered anew |
| SystemMonitor.KeepsWhatWasGranted | MICO/system/mico_system_monitor.c:85-115 | Over every run from the start both fields of every item are those of the last registration, or of the last check-in that was not late, as the calls and their times alone determine them; an item is in a slot if and only if it is one of the first five registrations |
| SystemMonitor.TripsExactly | MICO/system/mico_system_monitor.c:59-115 | Over every run the device hangs if and only if at some sweep the time since an activity was last granted a delay exceeds that delay, modulo 2^32 |
| SystemMonitor.PunctualNeverTrips | MICO/system/mico_system_monitor.c:59-83 | If at every sweep nobody has been silent for longer than last granted, none trips, however often the clock wraps |
| SystemMonitor.OverdueIsFatal | MICO/system/mico_system_monitor.c:59-115 | Who has been silent for longer than last granted stays so unless registered anew, the watchdog is not reloaded any more and the next sweep trips, for less than 2^32 ms of silence |
| SystemMonitor.SilenceBounded | MICO/system/mico_system_monitor.c:59-115 | With sweeps at most a period apart, from the start: as long as the device has not hung nobody has been silent for longer than last granted and one period |
| SystemMonitor.NeverReloaded | MICO/system/mico_system_monitor.c:72-81 | After a sweep tripped the watchdog is never reloaded again |
| SystemMonitor.OnTimeNeverTrips | MICO/system/mico_system_monitor.c:59-83 | If everybody is on time at every sweep no sweep trips, however often the clock wraps |
| SystemMonitor.NoticedWithinAPeriod | MICO/system/mico_system_monitor.c:59-115 | Over every run in which the monitor thread sweeps and then sleeps for no more than a period, if permitted delay plus period is below 2^32: as long as it has not hung no registered activity is silent for longer than delay plus period, and the watchdog was reloaded no longer than a period ago |
| SystemMonitor.WatchdogHeld | MICO/system/mico_system_monitor.c:50-82 | With the period and the watchdog time of the code the watchdog does not bite before a sweep has hung |
| SystemMonitor.SureToBeNoticed | MICO/system/mico_system_monitor.c:72 | Of two sweeps around the deadline the second is sure to find it missed if and only if delay plus period is below 2^32 |
| SystemMonitor.Supervisor.RegisterMonitor | MICO/system/mico_system_monitor.c:85-102 | The first free of five slots gets the item, which gets the current time and the given delay, the other slots staying as they are; or the call is refused and nothing changes |
| SystemMonitor.Supervisor.UpdateMonitor | MICO/system/mico_system_monitor.c:104-115 | A late item stays as it is, any other, registered or not, gets the current time and the new delay; no other item changes |
| SystemMonitor.Supervisor.SweepMonitors | MICO/system/mico_system_monitor.c:63-83 | A sweep trips if and only if a registered item is late, and reloads the watchdog otherwise |
| Notifications.Registry.NotifyRegister | MICO/system/mico_system_notification.c:234-258 | The callback is appended unless it is there; the other lists do not change; one node is allocated, and it is lost if and only if the callback was there already |
| Notifications.Registry.NotifyRemove | MICO/system/mico_system_notification.c:260-284 | The entry is taken out and its node, and only that, freed; kDeletedErr for an empty list, kNotFoundErr for a missing entry |
| Notifications.Registry.NotifyRemoveAll | MICO/system/mico_system_notification.c:286-297 | The list is empty and exactly its nodes are freed; the other lists do not change |
| Notifications.Registry.Dispatch | MICO/system/mico_system_notification.c:65-76 | Every entry of the list is called exactly once, in order |
| Notifications.RemovedMembers | MICO/system/mico_system_notification.c:260-284 | Removing takes out exactly the entry of the callback and leaves the others |
| Notifications.RegisterThenRemove | MICO/system/mico_system_notification.c:234-284 | Removing undoes registering |
| Notifications.ListIsInOrder | MICO/system/mico_system_notification.c:234-297 | After any sequence of operations a list holds exactly the callbacks registered and not removed since, once each, in the order of registration and with the arguments given then |

## Left out

- YmodemTheorems.TransferCorrect: does not cover corrupted payload bytes, because the receiver ignores the packet checksum and would store them.
- YmodemHeader.PrepareInitialPacket: does not model a size buffer without any terminator, for which the original reads past its stack buffer.
- YmodemTheorems.FaultFreeTransfer: does not promise that retries alone bring every transfer to an end; the opening loop does not count replies that are not acknowledgements, so it has no bound.
- YmodemReceiver.Reception.ReceiveAll: does not model the RAM buffer through which a block passes on its way to the flash, nor an error of the flash other than running past its end.
- ConfigRecovery.NeverAMixture: does not cover torn copies that match their checksum by chance, nor different configurations with equal checksums, because a 16-bit checksum cannot exclude them.
- ConfigStore.Context.MICOReadConfiguration: does not model the copying of the static IP strings into the status.
- OtaRestart.AlwaysRestartable: does not cover type 'B', because the code that would restart such an update is what it overwrites.
- OtaUpdate.Updater.Update: assumes that Parameter1 is no larger than the 16 KB buffer it is copied to, as the original does.
- RfDriverCopy.CopyResult: treats the temporary place of the RF driver as a partition of its own, although its addresses lie inside the application partition; the copy is made at the first start, before an application is updated, and the two are never combined in one run of the model.
- SppProtocol.Bridge.SppUartCommandProcess: does not model preemption inside a single take or free; SppMemory and SppDelivery cover every interleaving between them.
- SystemMonitor.MissedIsFatal: does not cover an activity that is registered a second time, which resets its deadline, nor a check-in in the middle of a sweep.
- Notifications.Registry.Dispatch: does not cover callbacks that change the list while it is being walked, and abstracts a call to the pair of function and argument.
- UART, sockets, select, thread creation, Wi-Fi and mDNS are not part of this model.
- Pin tables, interrupts, clocks, LEDs and the other boards are not part of this model.
- The console menu of the bootloader and its line editor are not part of this model.
- FlashMemory.Flash.EraseAt: models the 4 KB sectors of the SPI flash; the larger sectors of the internal flash, and their being skipped when blank, are not modelled.
- Write protection of flash sectors and the enabling and disabling of flash security are not part of this model.
- The manufacturing-mode variant of restoring defaults (MFG_MODE_AUTO) is not part of this model.
- The CRC-8 table is a parameter: what is proved holds for any 256 entries.
