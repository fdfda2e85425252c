# Proofs about the ao486 support software

The repository surrounds a 486 core with firmware, tools and simulation harnesses. This project models
the parts of it whose correctness is more than sequencing of I/O, and proves what they are for:

- **CRC-32 of the uploader** (`BitSerialCrc`, `Crc32Checksum`, `Crc32Network`, `UploadFrame`): the
  unrolled byte network is eight clocks of the serial register of section 3.2.9 of IEEE Std 802.3 (the
  algorithm of section 8 of RFC 1952); the register is the remainder of a polynomial division; every
  burst of 32 bits is detected; the residue is constant.
- **INT 13h** (`AtaDrive`, `AtaDataIo`, `DiskGeometry`, `AtapiPacket`, `CdEmulation`): geometry
  translation, task file (sections 6.2 and 6.20 of ATA/ATAPI-6), sector loop, packet window and disk
  emulation, each layer refining "copy these bytes of the medium to this linear address", composed up to
  the two INT 13h entry points.
- **The lock-step bus** (`LockstepBus`, `LockstepProgress`): two CPUs, the arbiter and a device as one
  state machine over single accesses to shared memory, with an inductive invariant over every
  interleaving, and progress of every request that both make under every fair one.
- **Keyboard ring and tick clock** (`KeyboardRing`, `TickClock`): the ring under interrupts between any
  two accesses, the counter across midnight and the delay that waits on it.
- **MiSTerFS** (`MisterFs`): the chunk loops of READFIL and WRITEFIL are one slice and one overwrite of
  the server's file.
- **Video** (`TextScreen`, `TextLaws`, `Pixels`, `CirrusStart`): teletype and scrolling against a
  reference terminal, what the terminal makes of strings of text and control characters,
  pixel memory against a picture in three memory models, and the display start of section 4.10 of VBE
  Core Functions 3.0.
- **The two checksum patchers** (`ByteSums`, `SystemBiosSums`, `SystemBiosLayout`, `SystemBiosRefused`,
  `VgaBiosSums`, `VgaBiosLayout`, `VgaBiosAgain`): what every run leaves in an image, said of its bytes, and
  what a second run does.

`Basics` and `ByteSums` hold what several modules share. Objects whose fields the source updates are
classes; their methods are proved against functions of the old state, and the theorems are about those
functions. `dafny verify dfyconfig.toml` checks everything.

Places where the code does not do what one would expect, with the exact condition:

- The disk emulation accepts sector 0 and then reads 65535 sectors further on, which is behind any image of
  at most so many sectors (`CdEmulation.ReadBegins`, `CdEmulation.ReadBeginsInImage`, `CdEmulation.Read`).
- On disks so large that the LBA translation's cylinder count does not fit 16 bits it is cut, and a small
  result leaves most of the disk out of reach (`DiskGeometry.LbaIsLargest`, `DiskGeometry.NothingAddressable`).
- The sector loop counts down the low byte of a 16-bit count, and reports the sectors moved in 8 bits, so
  that functions 42h and 43h do what they are asked for counts 1 to 255 only (`AtaDataIo.CountHonoured`).
- Pixels of the one-bit mode are read from another byte than they are written to, except in the first
  four columns (`Pixels.OneBitReadBack`); the byte-per-pixel mode ignores the exclusive-or bit
  (`Pixels.LinearDrawTwice`).
- The arbiter acknowledges the ao486 first, so that the ao486 may ask for the same again while the bochs CPU
  still waits; both are then not acknowledged together (`LockstepProgress.AnsweredTogether`,
  `LockstepProgress.AheadRun`).
- A display start whose byte address is not divisible by four is not got back
  (`CirrusStart.Cirrus.SetThenGet`).
- The delay loses ticks at midnight (`TickClock.CountedAtWake`, `TickClock.DelayBounds`); it never ends early.
- A packet read stores one byte more than it reports exactly when it keeps an odd number of them
  (`AtapiPacket.OddByte`); no caller asks for one (`AtapiPacket.EvenRequests`).
- A tab writes one to three blanks and ends at a column that is not divisible by eight
  (`TextLaws.TabIsBlanks`); on a screen of one column it would not end.
- Scrolling a window that begins behind the right edge fills cells outside it, as its 8-bit width wraps
  (`TextScreen.ScrollStaysInside`).
- A PCMP table shorter than the bytes the checks look at can have one of them spoilt by the checksum of a
  $PnP header 32 bytes after it, and then a second run ends with an error (`SystemBiosSums.SecondRun`,
  `SystemBiosRefused.SecondRunFails`).
- The VGA patcher indexes past its 64 KB array exactly when a full image needs a change
  (`VgaBiosSums.EveryRun`).
- A second run of the VGA patcher does more exactly when an entry that came up by growing is wrong, or the
  PCI length was set within the PMID entry (`VgaBiosAgain.RunAgain`, `VgaBiosAgain.SecondRunChanges`).

## Model

| member | source | states |
|---|---|---|
| BitSerialCrc.FeedIsTheRemainder | sim/iverilog/soc/uploader/uploader.cpp:24-62 | whatever was fed in, the register and only the register is the remainder of dividing the message (preloaded with the start value) by the generator over GF(2): for every quotient and remainder that recombine to the dividend, the remainder is the register |
| BitSerialCrc.DivisionUnique | sim/iverilog/soc/uploader/uploader.cpp:24-62 | division by the generator 0x04C11DB7 has one result: equal recombinations have equal quotients and remainders |
| BitSerialCrc.FeedDivides | sim/iverilog/soc/uploader/uploader.cpp:24-62 | quotient times generator plus register equals the message polynomial, coefficient by coefficient |
| BitSerialCrc.FeedLinear | sim/iverilog/soc/uploader/uploader.cpp:24-62 | the register is linear: the sum of two runs is the run of the sums |
| BitSerialCrc.FeedInjective | sim/iverilog/soc/uploader/uploader.cpp:24-62 | clocking with any bits is invertible: different registers stay different |
| BitSerialCrc.FeedLoaded | sim/iverilog/soc/uploader/uploader.cpp:24-62 | up to 32 bits fed in are the same as those bits added to the register and zeros fed in |
| BitSerialCrc.FeedDetectsBurst | sim/iverilog/soc/uploader/uploader.cpp:24-62 | any two bit strings of one length that differ only within a window of 32 bits leave different registers, from every start and at every position |
| Crc32Checksum.ChecksumDetectsBurst | sim/iverilog/soc/uploader/uploader.cpp:5-63 | two different files of one length whose differing bits lie in one window of 32 never have the same checksum |
| Crc32Checksum.MessageBitsAppend | sim/iverilog/soc/uploader/uploader.cpp:120 | feeding two files one after the other is feeding their concatenation |
| Crc32Checksum.OutputInjective | sim/iverilog/soc/uploader/uploader.cpp:15-22 | the reflected, complemented output word loses nothing of the register |
| Crc32Network.NetworkIsEightSteps | sim/iverilog/soc/uploader/uploader.cpp:29-60 | all 32 rows of the unrolled network equal eight clocks of the serial register |
| Crc32Network.ByteFeedbacks | sim/iverilog/soc/uploader/uploader.cpp:29-60 | the eight feedback bits of a byte follow from the register before the byte and the input alone, which is what lets a byte be taken at once |
| Crc32Network.Register.Crc32 | sim/iverilog/soc/uploader/uploader.cpp:5-63 | the four uses told apart by null pointers: set to ones, hand out, take a byte, or do nothing |
| Crc32Network.Register.Update | sim/iverilog/soc/uploader/uploader.cpp:24-62 | one call advances the static register by eight serial clocks over in[0]..in[7] |
| Crc32Network.Register.ReadOut | sim/iverilog/soc/uploader/uploader.cpp:15-22 | the word built bit by bit is the complemented register with entry i at bit 31 - i |
| UploadFrame.Upload | sim/iverilog/soc/uploader/uploader.cpp:107-161 | the frame is that of the whole file, with the checksum taken from the register object; an empty file is refused |
| UploadFrame.FrameTakenApart | sim/iverilog/soc/uploader/uploader.cpp:119-155 | taken apart the frame gives back byte by byte the command, the offset, the length, the file and its checksum, and file and checksum together have the checksum 0x2144DF1C |
| UploadFrame.ChecksumBits | sim/iverilog/soc/uploader/uploader.cpp:155 | the four checksum bytes, sent low byte first, are the complemented register from the top down |
| UploadFrame.SelfFeed | sim/iverilog/soc/uploader/uploader.cpp:24-62 | feeding a register its own complement leaves a value that does not depend on the register |
| UploadFrame.ResidueIsConstant | sim/iverilog/soc/uploader/uploader.cpp:119-155 | for every file, the checksum over the file and its four checksum bytes is 0x2144DF1C |
| AtaDataIo.Issue | sw/sysbios/rombios.c:2922-2946 | the registers written, in order, decode at the drive to exactly the address and count asked for; the 28-bit form is used only when lba + count < 2^28 and the count fits a byte |
| AtaDataIo.Decode28 | sw/sysbios/rombios.c:2934-2945 | sector, cylinder and head registers of the 28-bit form decode back to the LBA |
| AtaDataIo.Decode48 | sw/sysbios/rombios.c:2925-2945 | the two writes to each register of the 48-bit form decode back to the LBA and count |
| AtaDataIo.CountHonoured | sw/sysbios/rombios.c:2924-3098 | with a drive that has the sectors it was asked for, all are moved, success is reported and the number reported is the number asked for if and only if the count is 1 to 255; with more, the low byte of the count is moved and an error returned, and when that byte is zero all are moved and none is reported |
| AtaDataIo.LoopEndObliging | sw/sysbios/rombios.c:2965-3098 | such a drive and a loop of its own count move what is less of the two, and the code tells which |
| AtaDataIo.Adjust | sw/sysbios/rombios.c:2976-2982 | the 0xf800 adjustment keeps the linear address and leaves room for a whole 2 KB transfer in the segment |
| AtaDataIo.RepIns | sw/sysbios/rombios.c:2989-3004 | either width of string input stores the same contiguous bytes of the medium and advances DI by their number |
| AtaDataIo.RepOuts | sw/sysbios/rombios.c:3030-3047 | either width of string output sends the same contiguous bytes of memory |
| AtaDataIo.Driver.ReadRound | sw/sysbios/rombios.c:2967-3059 | one round keeps segment*16 + offset at start + 512k and appends the k-th sector to what has been stored |
| AtaDataIo.Driver.ReadLoop | sw/sysbios/rombios.c:2965-3098 | for every count and status sequence memory is the old memory with exactly the sectors moved spliced in, and trsfsectors is their number in 8 bits |
| AtaDataIo.Driver.WriteRound | sw/sysbios/rombios.c:2967-3059 | one round of a write extends the stretch of the disk written by the next sector of memory |
| AtaDataIo.Driver.WriteLoop | sw/sysbios/rombios.c:2965-3098 | for every count and status sequence the disk is the old disk with exactly the sectors moved written at the cursor, and trsfsectors is their number in 8 bits |
| AtaDataIo.LoopEndMeans | sw/sysbios/rombios.c:3060-3098 | codes 0, 4 to 7 in bits of the polled statuses: every status but the last has ready and data request and neither busy nor error; the code is 0 exactly when all sectors were moved and the last status is ready without busy, data request or error, and for a write without fault |
| AtaDataIo.OutcomeMeans | sw/sysbios/rombios.c:2897-3101 | the command returns 0 exactly when the drive is not busy, then asks for data without an error, asks again after each sector but the last, and ends ready without error or fault; codes 1 to 3 are the early ends |
| AtaDataIo.Driver.DataIo | sw/sysbios/rombios.c:2890-3102 | the whole command for every 16-bit count: one decoded command with opcode 20h, 24h, 30h or 34h at the drive, exactly the sectors moved between the addressed sector and memory, and code 0 exactly when the statuses are those of a success, for every status sequence, direction and width |
| AtaDataIo.WriteThenRead | sw/sysbios/rombios.c:2965-3098 | reading the sectors just written into any buffer brings back the bytes written |
| DiskGeometry.Translate | sw/sysbios/rombios.c:2652-2691 | for every drive and translation the loop ends with the logical geometry that the lemmas below are about |
| DiskGeometry.Shift | sw/sysbios/rombios.c:2675-2681 | the shift loop ends with the cylinders and heads of the recursive definition, 16-bit head doubling included |
| DiskGeometry.LogicalFits | sw/sysbios/rombios.c:2652-2691 | the logical geometry has at most 1024 cylinders and no more sectors than the drive |
| DiskGeometry.ShiftedFits | sw/sysbios/rombios.c:2675-2681 | shifting never gains sectors, ends with the cylinders within 1024 or the heads above 127, and loses less than one resulting cylinder |
| DiskGeometry.LargeLosesLittle | sw/sysbios/rombios.c:2674-2686 | unless the cylinders are clipped, the large translation leaves out less than one logical cylinder of the drive |
| DiskGeometry.FifteenTight | sw/sysbios/rombios.c:2667-2672 | with fifteen heads for sixteen the cylinders fit 16 bits exactly up to the limit of 61439, and less than fifteen tracks are lost |
| DiskGeometry.RechsLosesLittle | sw/sysbios/rombios.c:2666-2686 | the r-echs translation of a drive within that limit leaves out less than one logical cylinder as well |
| DiskGeometry.LbaIsLargest | sw/sysbios/rombios.c:2655-2665 | the LBA translation gives as many cylinders as it can if and only if their number fits 16 bits or cutting it leaves at least 1024 |
| DiskGeometry.LbaLosesLittle | sw/sysbios/rombios.c:2655-2665 | below 1024 whole cylinders the LBA translation leaves out less than one |
| DiskGeometry.HeadsOfLargeDisks | sw/sysbios/rombios.c:2658-2663 | the heads are those of the whole capacity if and only if the 16-bit quotient is not cut, or what is left of it exceeds 128 |
| DiskGeometry.NothingAddressable | sw/sysbios/rombios.c:2655-2665 | on a disk of 1052835840 sectors the LBA translation gives no cylinder, so that no address is accepted |
| DiskGeometry.SectorInRange | sw/sysbios/rombios.c:5548-5562 | every accepted cylinder, head and sector stand for a sector of the logical disk |
| DiskGeometry.SectorInjective | sw/sysbios/rombios.c:5548-5562 | no two accepted addresses share a sector |
| DiskGeometry.AcceptedOnDrive | sw/sysbios/rombios.c:5548-5565 | on the geometry that any translation gives a drive, every accepted address stands for a sector of that drive, without 32-bit overflow, and the command goes out to it as CHS and as LBA alike |
| DiskGeometry.HardDisk | sw/sysbios/rombios.c:5526-5581 | functions 02h to 04h: an accepted call moves exactly AL sectors between ES:BX and the addressed sector whether it goes out as CHS or as LBA, a rejected one nothing |
| DiskGeometry.RegistersName | sw/sysbios/rombios.c:5530-5533 | a ten-bit cylinder and a six-bit sector put into CH and CL, the high two bits of the cylinder above the sector, are what is read from them |
| DiskGeometry.DetectedDisk | sw/sysbios/rombios.c:2652-2691 | on the geometry chosen at detection a call of functions 02h or 03h for cylinder c, head h and sector s moves its sectors at (c * heads + h) * spt + s - 1, which lies on the drive, and sets carry exactly when the statuses are not those of a success |
| DiskGeometry.ExtendedDisk | sw/sysbios/rombios.c:5647-5690 | functions 42h, 43h, 44h and 47h for every 16-bit count: blocks beyond the disk are refused, otherwise the sectors moved lie at the block and at segment:offset, and the count put back is their number in 8 bits |
| AtapiPacket.Cut | sw/sysbios/rombios.c:3246-3266 | before, wanted and after bytes add up to the block and reduce header and length by what they use |
| AtapiPacket.InTransfers | sw/sysbios/rombios.c:3274-3293 | after the odd-byte fix and the choice of width the three transfer counts still move exactly the block |
| AtapiPacket.Round | sw/sysbios/rombios.c:3238-3371 | one block is consumed to the byte, its wanted bytes lie at the buffer, and the normalised offset never wraps |
| AtapiPacket.KeptStep | sw/sysbios/rombios.c:3246-3266 | cutting block by block keeps what cutting the whole stream at once keeps |
| AtapiPacket.WindowMeets | sw/sysbios/rombios.c:3246-3286 | the wanted bytes of a block begin where those before it ended, and an odd number is kept only at the very end |
| AtapiPacket.WindowGrows | sw/sysbios/rombios.c:3367-3372 | the bytes of two blocks stored back to back are one stretch of the stream |
| AtapiPacket.Rounds | sw/sysbios/rombios.c:3216-3373 | for every sequence of DRQ blocks memory holds the stream from the header on, contiguously, and the transfer count is the number of bytes kept |
| AtapiPacket.AtaCmdPacket | sw/sysbios/rombios.c:3113-3386 | the whole packet command with its refusals: memory, cursor, return code and trsfbytes for every status and block sequence, and the code of a command without data |
| AtapiPacket.CodesMean | sw/sysbios/rombios.c:3149-3381 | the return codes in bits of the statuses: the packet is taken when the drive is not busy and then asks for data without an error; a data-in command ends with 0 exactly in the status phase, ready, without busy, data, error or fault |
| AtapiPacket.OddByte | sw/sysbios/rombios.c:3280-3286 | nothing but the bytes reported changes, for every memory and medium, if and only if an even number of bytes is kept |
| AtapiPacket.EvenRequests | sw/sysbios/rombios.c:6197 | an even header and an even length, which is what every caller passes, keep an even number |
| CdEmulation.ReadBegins | sw/sysbios/rombios.c:6158-6175 | a read that passes the checks begins at the sector meant, within the image, if and only if that is not sector 0; sector 0 stands for 65535 sectors after the first of its track |
| CdEmulation.ReadBeginsInImage | sw/sysbios/rombios.c:6161-6175 | in an image of at most 65535 sectors a checked read begins within the image if and only if its sector is not 0 |
| CdEmulation.SectorsCover | sw/sysbios/rombios.c:6180-6189 | the 2048-byte sectors from slba to elba hold the requested window, starting `before` small sectors in, and none is superfluous |
| CdEmulation.ReadPacket | sw/sysbios/rombios.c:6187-6196 | packet bytes 2 to 5 and 7 to 8 are the CD sector and the count, high byte first |
| CdEmulation.ReadImage | sw/sysbios/rombios.c:6171-6197 | the status is what the drive makes of the packet; when it is 0, bytes 512*vlba to 512*(vlba+n) of the image are at ES:BX, and nothing outside the buffer changes in any case |
| CdEmulation.Read | sw/sysbios/rombios.c:6143-6205 | functions 02h and 04h end to end: a checked read of cylinder, head and sector, as CH, CL and DH name them, fails exactly when the drive does not take the packet or does not end it well, and otherwise delivers the bytes from the sector meant on, or, for sector 0 of an image of at most 65535 sectors, bytes of the CD from behind the image |
| LockstepBus.InvStep | sim/sim_pc/main.cpp:188-356 | every access of either CPU, the arbiter or the device keeps the invariant of the handshake |
| LockstepBus.RequestStands | sim/sim_pc/main.cpp:201-204 | a standing request is changed by nobody else, so the arbiter may compare and copy its fields one at a time |
| LockstepBus.CpuKeeps | sim/verilator/ao486/main.cpp:235-272 | a CPU never disturbs its own standing request and completes a transaction only when it was answered |
| LockstepBus.LockStep | sim/sim_pc/main.cpp:188-339 | after every interleaving: no read and write open at once, each granted transaction completed by both CPUs with equal requests and equal answers, one acknowledgement each, at most one transaction apart |
| LockstepProgress.AnsweredInTime | sim/sim_pc/main.cpp:188-356 | when both CPUs ask for the same, reads and writes of either kind alike, then however everybody goes on, after 32 rounds in which the arbiter and the device have acted, the bochs CPU is acknowledged, and so is the ao486 unless it had been already |
| LockstepProgress.AnsweredTogether | sim/sim_pc/main.cpp:188-356 | when both ask for the same, the arbiter and the device can bring both their acknowledgement without them if and only if both have completed the same number of transactions |
| LockstepProgress.AheadRun | sim/verilator/ao486/main.cpp:235-245 | a run after which both ask for the same, but the ao486 for the second time |
| LockstepBus.CompletedWasServed | sim/sim_pc/main.cpp:221-231 | what either CPU has completed was carried out behind the combined record, in order, with the value it got |
| LockstepBus.MemoryIsReplay | sim/sim_pc/main.cpp:343-356 | between transactions memory is the initial memory with the granted writes replayed in order |
| LockstepBus.LastWriteStands | sim/sim_pc/main.cpp:343-356 | between transactions every byte is the one that the last granted write to it stored, outside the video memory and where its enable bit is set, or what it was at the start |
| LockstepBus.MemoryStep | sim/sim_pc/main.cpp:343-356 | every access keeps memory equal to the replay of the granted writes that have taken effect |
| LockstepBus.ArbiterLeavesMemory | sim/sim_pc/main.cpp:188-339 | no step of the arbiter but the commit changes memory |
| LockstepBus.CommitWord | sim/sim_pc/main.cpp:346-353 | the shifting byte loop leaves the memory of one store, and the two fields shifted out |
| KeyboardRing.FullWhenTailMeetsHead | sw/sysbios/rombios.c:5197-5202 | advancing the tail onto the head happens exactly when fifteen keys wait |
| KeyboardRing.KeysSnoc | sw/sysbios/rombios.c:5207-5209 | a key stored at the tail is appended to the keys waiting |
| KeyboardRing.StoredKey | sw/sysbios/rombios.c:5197-5209 | storing appends one key and leaves the head alone |
| KeyboardRing.RemovedKey | sw/sysbios/rombios.c:4855-4859 | moving the head removes exactly the oldest key |
| KeyboardRing.KeyboardBuffer.constructor | sw/sysbios/rombios.c:10795-10808 | the set-up yields an empty ring between 0x1e and 0x3e, with the four pointers at 1Ah, 1Ch, 80h and 82h |
| KeyboardRing.KeyboardBuffer.Enqueue | sw/sysbios/rombios.c:5191-5211 | a key is dropped exactly when fifteen wait, and is otherwise appended; nothing but the tail and the ring changes |
| KeyboardRing.KeyboardBuffer.ReadPointers | sw/sysbios/rombios.c:4843-4847 | with interrupts between the four reads the head read is still the head, and the tail is the one of its moment |
| KeyboardRing.KeyboardBuffer.ReadKey | sw/sysbios/rombios.c:4849-4853 | with interrupts between the two reads the bytes are still those of the oldest key |
| KeyboardRing.KeyboardBuffer.Dequeue | sw/sysbios/rombios.c:4843-4865 | with any interrupts between any two accesses the key returned is the next one accepted, keys taken followed by keys waiting are the keys accepted, and a miss is reported only when every key accepted has been taken |
| TickClock.SplitRate | sw/sysbios/rombios.c:9388-9394 | multiplying the whole and the fractional part of the rate apart loses no tick |
| TickClock.TicksAtBoot | sw/sysbios/rombios.c:9361-9394 | the register computation is the floor of seconds times the 32.32 fixed-point rate |
| TickClock.Boot | sw/sysbios/rombios.c:9328-9399 | for every time of day h:m:s in decimal digits the counter starts below 0x1800B0 at the number of whole ticks in so many seconds |
| TickClock.Clock.Int08 | sw/sysbios/rombios.c:11500-11511 | the counter counts modulo a day and the rollover byte counts midnights |
| TickClock.Clock.Interrupts | sw/sysbios/rombios.c:11500-11511 | after any number of interrupts the counter is below a day and the midnights are counted exactly |
| TickClock.TicksKept | sw/sysbios/rombios.c:11500-11511 | counter and midnights together lose none of the interrupts that came in |
| TickClock.CountedAtWake | sw/sysbios/rombios.c:1625-1636 | one wake-up counts at most the w ticks that came in, all of them exactly when none was midnight, and loses at most w for each midnight |
| TickClock.Clock.Wake | sw/sysbios/rombios.c:1622-1636 | one round of the loop takes off what has been counted at that wake-up |
| TickClock.Clock.DelayTicks | sw/sysbios/rombios.c:1617-1637 | the delay ends at the first wake-up after which enough has been counted and at no other; while it has not ended, not enough has been counted |
| TickClock.LossBound | sw/sysbios/rombios.c:1625-1636 | wake-ups of at most m interrupts lose at most m for each midnight |
| TickClock.LossOneByOne | sw/sysbios/rombios.c:1625-1636 | woken at each interrupt exactly one is lost at each midnight |
| TickClock.DelayBounds | sw/sysbios/rombios.c:1617-1637 | it never ends early, and late by less than m and at most m more for each midnight; woken at each interrupt exactly one for each midnight |
| TickClock.DelayEnds | sw/sysbios/rombios.c:1617-1637 | it has ended once the interrupts exceed the request by what can be lost |
| TickClock.Clock.Delay | sw/sysbios/rombios.c:1601-1643 | both bounds for the whole function: when it ends, and how many interrupts can have come in while it has not |
| MisterFs.TokenFresh | sw/MiSTerFS/MiSTerFS.C:224-227 | the new request word differs from the old one and from the preset of the response word |
| MisterFs.Redirector.SendQuery | sw/MiSTerFS/MiSTerFS.C:207-239 | a query with the sequence number counted on is served exactly once and what is returned is its answer |
| MisterFs.Redirector.AskToRead | sw/MiSTerFS/MiSTerFS.C:366-369 | the query to read has length 8, the drive, function 08h, and offset, file and length little-endian behind the header |
| MisterFs.Redirector.AskToWrite | sw/MiSTerFS/MiSTerFS.C:408-412 | the query to write has a length of 8 more than the data, the drive, function 09h, the arguments and the data |
| MisterFs.CopyBytes | sw/MiSTerFS/MiSTerFS.C:50-57 | the byte loop is a splice |
| MisterFs.OverwriteAppend | sw/MiSTerFS/MiSTerFS.C:403-428 | two writes back to back are one write |
| MisterFs.SliceAppend | sw/MiSTerFS/MiSTerFS.C:358-385 | two reads back to back are one read |
| MisterFs.WriteThenRead | sw/MiSTerFS/MiSTerFS.C:343-430 | reading back what was written to a file gives the bytes written |
| MisterFs.ChunkRead | sw/MiSTerFS/MiSTerFS.C:376-384 | a full chunk continues the slice of the file; one that the end of the file cuts short completes it |
| MisterFs.ChunkWritten | sw/MiSTerFS/MiSTerFS.C:411-422 | a chunk written continues the overwrite of the file |
| MisterFs.Redirector.ReadChunks | sw/MiSTerFS/MiSTerFS.C:357-385 | the chunk loop ends and has stored the bytes of the file from the position on, all there are when the server answers in full |
| MisterFs.Redirector.ReadFil | sw/MiSTerFS/MiSTerFS.C:343-387 | READFIL is one slice of the file: buffer, CX and file_pos agree with the bytes moved, an error moves neither, and AX is 5 for a refused access, 2 for a network error, the error of the server, or 0 |
| MisterFs.Redirector.WriteChunks | sw/MiSTerFS/MiSTerFS.C:401-428 | the chunk loop ends with written + bytesleft conserved and position, size and CX matching what went out, also after a short reply or an error |
| MisterFs.Redirector.WriteFil | sw/MiSTerFS/MiSTerFS.C:388-430 | WRITEFIL is one overwrite of the file by the bytes reported, file_pos, file_size and CX match them, AX tells the error, and n bytes take n / 1024 queries, rounded up, when the server answers in full |
| MisterFs.Redirector.WriteThenReadBack | sw/MiSTerFS/MiSTerFS.C:343-430 | writing any n < 65536 bytes and reading n at the same position returns them |
| TextScreen.TextAppears | sw/vgabios/vgabios.c:2084-2177 | text that fits stands on the screen in reading order, wrapped at the right edge, and nothing else changes |
| TextLaws.LongText | sw/vgabios/vgabios.c:2111-2177 | after printable text of any length the screen shows the last lines of an endless paper on which the text follows what was there, each new line blank in the attribute with which the line above begins, and the cursor is where the text ends |
| TextLaws.TwoLines | sw/vgabios/vgabios.c:2094-2100 | text, 0Dh 0Ah and text: the second part stands at the beginning of the next row and nothing else changes |
| TextLaws.TwoLinesAtBottom | sw/vgabios/vgabios.c:2094-2177 | from the last row everything moves up by one row, and the second part stands in the last row, which is blank in the attribute with which the row above begins |
| TextLaws.CarriageReturn | sw/vgabios/vgabios.c:2094-2096 | 0Dh goes to column 0 and keeps row and screen |
| TextLaws.LineFeed | sw/vgabios/vgabios.c:2098-2100 | 0Ah keeps the column, and at the bottom brings up a blank line in the attribute found there at the column |
| TextLaws.Overstrike | sw/vgabios/vgabios.c:2090-2092 | text, as many backspaces and other text: the other text is written over the first, of which the rest stays |
| TextLaws.TabIsBlanks | sw/vgabios/vgabios.c:2102-2109 | a tab is one to three blanks, as many as lead to a column not divisible by eight |
| TextScreen.CopyWords | sw/vgabios/vgabios.c:1402 | the word copy is right although source and destination may overlap |
| TextScreen.RowSpliced | sw/vgabios/vgabios.c:1397-1403 | replacing a part of one row leaves every other cell of the screen |
| TextScreen.ScrollMemory | sw/vgabios/vgabios.c:1350-1404 | for all byte arguments memory becomes what the rows, one after the other, with the width counted in 8 bits, make of it; nothing changes for an empty window |
| TextScreen.MovedTreated | sw/vgabios/vgabios.c:1396-1404 | scrolling in place row by row gives every cell what moving the whole window at once gives it, and memory behind the screen stays |
| TextScreen.ScrollIsWindow | sw/vgabios/vgabios.c:1375-1404 | a window that begins at most at the right edge is scrolled as a whole after its clipping |
| TextScreen.ScrollStaysInside | sw/vgabios/vgabios.c:1359-1404 | no cell outside the window changes, whatever is in memory, if and only if there is no window or it begins at most at the right edge of the screen or below the last row; otherwise the 8-bit width wraps |
| TextScreen.Screen.ScrollUp | sw/vgabios/vgabios.c:1359-1404 | on a memory that is just the screen: every cell has what moving the clipped window makes of it, or nothing changes |
| TextScreen.Screen.WholeScreen | sw/vgabios/vgabios.c:2165 | scrolling the screen by one drops the first line and adds a blank one |
| TextScreen.Screen.Teletype | sw/vgabios/vgabios.c:2059-2177 | the memory and cursor after one character, a tab included, are those of the reference terminal, of which the laws of strings are proved; the cursor stays on the screen |
| TextScreen.Screen.WriteString | sw/vgabios/vgabios.c:3242-3272 | from the given position, or from the cursor for row 0xFF, the string loop is the terminal fed with the characters and their attributes, and the cursor moves only when asked |
| Pixels.CgaLayout | sw/vgabios/vgabios.c:1965-1971 | the picture begins at 0, four pixels are a byte, two rows 80 bytes, and the odd rows begin at 2000h |
| Pixels.FieldsOfByte | sw/vgabios/vgabios.c:1975-1976 | a byte is its four pixels from left to right |
| Pixels.ColumnsOfByte | sw/vgabios/vgabios.c:1943 | a byte is its eight columns from left to right, the first the highest bit |
| Pixels.PlanesOfColour | sw/vgabios/vgabios.c:2029 | a colour is a bit for each plane, plane 0 the lowest |
| Pixels.CgaApart | sw/vgabios/vgabios.c:1963-1971 | no two pixels share a place in the interleaved banks |
| Pixels.CgaWrite | sw/vgabios/vgabios.c:1962-1993 | the pixel written has its new colour and every other pixel its old one |
| Pixels.CgaRead | sw/vgabios/vgabios.c:2032-2044 | a read returns the colour the picture has there |
| Pixels.CgaDrawTwice | sw/vgabios/vgabios.c:1983-1992 | drawing twice with bit 7 restores memory |
| Pixels.OneBitWrite | sw/vgabios/vgabios.c:1967-1992 | the one-bit write changes the byte of its picture as specified |
| Pixels.OneBitPicture | sw/vgabios/vgabios.c:1967-1992 | after it the pixel has its new colour and every other pixel its old one |
| Pixels.OneBitRead | sw/vgabios/vgabios.c:2033-2043 | the read looks at the bit of the byte for two bits a pixel |
| Pixels.OneBitReadBack | sw/vgabios/vgabios.c:1967-2043 | a read after a write returns the colour written, for every memory and colour, if and only if the column is below 4 |
| Pixels.LinearWrite | sw/vgabios/vgabios.c:1994-1996 | one byte a pixel: the pixel becomes AL, bit 7 included, and no other changes |
| Pixels.LinearDrawTwice | sw/vgabios/vgabios.c:1994-1996 | drawing twice with bit 7 restores memory if and only if the pixel had that very colour |
| Pixels.LinearRead | sw/vgabios/vgabios.c:2045-2047 | a read returns that byte |
| Pixels.PlaneByteBits | sw/vgabios/vgabios.c:1943-1951 | a mode-2 write through the bit mask and latch sets or mixes one column of one plane and keeps the other seven |
| Pixels.Vga.WritePixel | sw/vgabios/vgabios.c:1940-1961 | in all four planes the pixel becomes the colour or is mixed with it, every other pixel stays, and the controller is left as found |
| Pixels.Vga.ReadPixel | sw/vgabios/vgabios.c:2020-2031 | the colour assembled from the four planes is the pixel |
| Pixels.Vga.DrawTwice | sw/vgabios/vgabios.c:1946-1951 | drawing twice with bit 7 restores all four planes |
| CirrusStart.Cirrus.SetStartAddr | sw/vgabios/clext.c:1629-1671 | the low 20 bits of DX:AX become the start address scattered over four registers; all other bits of the two extension registers and the line offset stay |
| CirrusStart.Cirrus.GetStartAddr | sw/vgabios/clext.c:1674-1710 | the scattered bits are gathered back into DX:AX |
| CirrusStart.Cirrus.BppBytes | sw/vgabios/clext.c:1530-1548 | the depth bits 0, 2, 4, 6 and 8 stand for 1, 2, 3, 2 and 4 bytes a pixel |
| CirrusStart.QuarterSplit | sw/vgabios/clext.c:1206-1212 | dividing 18 bits and shifting the rest is dividing the whole address by four |
| CirrusStart.Cirrus.SetDisplayStart | sw/vgabios/clext.c:1191-1215 | the start address is a quarter of the byte address, cut to 20 bits |
| CirrusStart.Cirrus.GetDisplayStart | sw/vgabios/clext.c:1216-1240 | four times the start address, split into line and pixel |
| CirrusStart.RoundTrip | sw/vgabios/clext.c:1191-1240 | splitting four times the quarter gives line and pixel back exactly when the byte address is divisible by four |
| CirrusStart.Cirrus.SetThenGet | sw/vgabios/clext.c:1191-1240 | what is set is got back if and only if the byte address is divisible by four, for every pixel within its line and 2^22 bytes |
| SystemBiosSums.GetOffset | sw/sysbios/biossums.c:334-353 | the search returns the next header on a paragraph, never the first paragraph, and none only when there is none |
| SystemBiosSums.Pass | sw/sysbios/biossums.c:130-242 | all headers of the kind are checked, and a header that is the only one gets the checksum it asks for |
| SystemBiosSums.Run | sw/sysbios/biossums.c:130-255 | the whole run: five passes in order, an early end when a check fails, and the image checksum last |
| SystemBiosSums.FoundStays | sw/sysbios/biossums.c:334-353 | changing bytes where checksums lie within a paragraph neither makes nor breaks a signature |
| SystemBiosSums.LengthStays | sw/sysbios/biossums.c:422-445 | no checksum byte is the length field of another header found |
| SystemBiosSums.ImageSumsToZero | sw/sysbios/biossums.c:244-299 | after every successful run the 64 KB sum to zero modulo 256 |
| SystemBiosSums.RunChangesOnlySums | sw/sysbios/biossums.c:130-255 | only the last byte and checksum bytes of uniquely found headers change, and the same headers are found afterwards |
| SystemBiosSums.RunKeepsLengths | sw/sysbios/biossums.c:130-255 | the length of every header found is unchanged |
| SystemBiosSums.HeadersSumToZero | sw/sysbios/biossums.c:130-242 | when no checksum byte lies in another header and each lies in its own, every uniquely found header sums to zero in the result |
| SystemBiosLayout.SumsByPlace | sw/sysbios/biossums.c:40-79 | then the only _32_ header sums to zero over 16 times its byte 9, the only _MP_ over 16 times its byte 8, the only PCMP over the word at 4, the only $PIR over the word at 6 and the only $PnP over its byte 5 |
| SystemBiosLayout.ChangesByPlace | sw/sysbios/biossums.c:40-79 | a run changes nothing but the last byte of the image and byte 10 of the only _32_ and _MP_, byte 7 of the only PCMP, byte 31 of the only $PIR and byte 8 of the only $PnP header |
| SystemBiosLayout.RunSucceeds | sw/sysbios/biossums.c:273-331 | a run succeeds if and only if every header of the five names has room for its fixed part and for the length it gives, and the tables end in zeros when their turn comes |
| SystemBiosSums.OnlyPnpSpoils | sw/sysbios/biossums.c:432-436 | of all checksum bytes only that of a $PnP header 32 bytes after a PCMP table can spoil a byte that must be zero there |
| SystemBiosSums.SecondRun | sw/sysbios/biossums.c:130-255 | a second run changes nothing if no such $PnP header needs a checksum other than zero, and otherwise ends with an error; both directions |
| SystemBiosRefused.SecondRunFails | sw/sysbios/biossums.c:130-255 | an image that is patched once and refused the next time |
| VgaBiosSums.Patcher.constructor | sw/vgabios/biossums.c:79-86 | the length is padded to 32 KB or to a whole block, and whether that changed it is recorded |
| VgaBiosSums.PmidsFrom | sw/vgabios/biossums.c:226-267 | every entry found lies whole before the last byte, which is what the range checks of lines 228, 260 and 267 ask |
| VgaBiosSums.Patcher.GetPmid | sw/vgabios/biossums.c:240-255 | the search returns the next PMID entry at any byte that lies whole before the last byte |
| VgaBiosSums.Patcher.GetPcir | sw/vgabios/biossums.c:272-287 | the search returns the first PCI data structure |
| VgaBiosSums.Patcher.FixPmid | sw/vgabios/biossums.c:96-121 | a single wrong PMID entry gets its checksum and may make the image grow |
| VgaBiosSums.Patcher.Finish | sw/vgabios/biossums.c:137-161 | the do-while ends after at most two rounds |
| VgaBiosSums.Patch | sw/vgabios/biossums.c:71-177 | the whole program is the composition of its steps, or leaves the array |
| VgaBiosSums.EveryRun | sw/vgabios/biossums.c:79-174 | for every image: the array is left if and only if a full 64 KB image needs a change; otherwise the sum is 0 mod 256, byte 2 and the PCI structure give the length, the length grows by one block exactly when something changed without padding, and the file is rewritten if and only if something was wrong |
| VgaBiosSums.OnlyTheseChange | sw/vgabios/biossums.c:88-161 | nothing but byte 2, one PMID checksum, the PCI length byte and the last byte changes |
| VgaBiosSums.PmidSumsToZero | sw/vgabios/biossums.c:96-115 | a single PMID entry clear of the two length bytes sums to zero in the result |
| VgaBiosLayout.ImageByPlace | sw/vgabios/biossums.c:79-174 | the image left is a whole number of blocks of 512 bytes, at least 32 KB, sums to zero, and byte 2 counts the blocks; the length is the one read, padded, or one block more |
| VgaBiosLayout.PmidByPlace | sw/vgabios/biossums.c:96-115 | the 20 bytes of the only entry named PMID, clear of the two length bytes, sum to zero |
| VgaBiosLayout.PcirByPlace | sw/vgabios/biossums.c:121-135 | byte 16 of the first structure named PCIR equals byte 2 |
| VgaBiosLayout.ChangesByPlace | sw/vgabios/biossums.c:88-161 | nothing changes but byte 2, the last byte, byte 19 of the only PMID entry and byte 16 of the first PCI data structure |
| VgaBiosSums.LeftAlone | sw/vgabios/biossums.c:79-174 | a second run leaves the result alone if and only if the entries found in it are right |
| VgaBiosAgain.RunAgain | sw/vgabios/biossums.c:79-174 | with no name where bytes may change, a second run changes nothing if and only if a PCI data structure that comes up only in the longer image has the right length in it, and the single PMID entry, found at first, does not have its sum upset by the length set in it, or, coming up only then, sums to zero; all said of the image as read |
| VgaBiosAgain.SecondRunChanges | sw/vgabios/biossums.c:79-174 | an image for which the hypothesis holds and the condition fails: a PCI data structure comes up by growing and a second run finds more to do |

## Left out

Assumed of parties that are not in the repository's files:

- The ATA drive decodes its registers as the standard says and shows any status at any poll; waiting for a status (`await_ide`), time-outs, the interrupt-enable bit and the delays are not modelled.
- The CD drive answers with even DRQ blocks of at most 0xfff0 bytes and ends its command afterwards (`Plan.Proper`); only for the disk emulation is it assumed that a completed READ (10) has sent all its sectors (`CdDrive.Honest`).
- The bus device acknowledges a standing request in finite or infinite time with any value; the bochs CPU behaves like the ao486 client.
- The MiSTerFS server acts only on a new request word; it may answer short, with an error, or not serve at all, and only the statements about complete transfers assume that it answers in full (`Server.Reliable`).

Stated on a smaller domain than the C types allow:

- AtaDataIo.Driver.DataIo: heads below 16 and counts below 256 in CHS commands, which are all that their callers send; the transfer that the drive's statuses allow ends below 1 MB.
- DiskGeometry.HardDisk: the physical drive has at most 16 heads, as the task file can hold no more; the overflow of the 32-bit sector number is part of the model, and `AcceptedOnDrive` shows that it does not occur.
- DiskGeometry.ExtendedDisk: the disk has fewer than 2^48 sectors.
- AtapiPacket.AtaCmdPacket: 12-byte packets, data-in and no-data commands, transfers ending below 1 MB; the two registers of the byte count are one number.
- CdEmulation.Read: the image ends below CD sector 2^32 and its geometry is one the boot code can store; the tests for an active emulation and for the drive number come before it and are left out.
- LockstepBus.LockStep: the lock-step mode; the two modes in which one CPU runs alone, and the two ports that are answered without waiting for the device, are outside. The store of one word and its acknowledgement are one step of the machine; the loop inside is `CommitWord`.
- KeyboardRing.KeyboardBuffer.Dequeue: no INT 16h function 05h and no Ctrl-Break flush while a key is taken.
- TickClock.Clock.DelayTicks: the interrupts come in only while the processor is halted, in any number; the delay is followed over any finite number of wake-ups.
- MisterFs.Redirector.WriteFil: the position stays below 2^32, and the transfer buffer is one array, so that a 16-bit offset running over the end of its segment is not modelled.
- TextScreen.Screen.Teletype: page 0 of a text mode, and no tab on a screen of one column, where it does not return; on other pages the scroll address depends on a page size that the function has not always read.
- TextScreen.Screen.ScrollUp: its memory is the screen alone, so that the window begins at most at the right edge; `TextScreen.ScrollMemory` takes every byte argument, over a memory that goes on behind the screen.
- TextScreen.ScrollMemory: text modes, upwards, on page 0, without wrap-around of the 16-bit offset, and at most 255 columns; the memory reaches as far as the fill can.
- Pixels.Vga.WritePixel: all four planes enabled and the exclusive-or setting off before the call.
- CirrusStart.Cirrus.GetDisplayStart: the line number fits 16 bits; the processor would trap otherwise.
- CirrusStart.Cirrus.SetThenGet: pixels within their line and byte addresses below 2^22, which is what the 20 bits can hold.
- VgaBiosAgain.RunAgain: images in which no PMID or PCIR name lies where a byte may change; for those with one, `VgaBiosSums.LeftAlone` gives the condition by the entries of the result.
- SystemBiosSums.HeadersSumToZero: headers that lie apart, each longer than the place of its checksum.

Not modelled:

- The CRC state array is an array of truth values instead of bytes holding 0 or 1.
- The masks of the Cirrus registers are written as arithmetic on their bits.
- File names, opening and writing of files, messages, and the `-pad` mode of the system BIOS patcher.
- Multi-beat bursts of the simulation, tracing, file logging and the replay harnesses.
- Graphics-mode text and scrolling, downward scrolling, saving and restoring of the video state, palettes, fonts and mode tables: tables and register copies.
- Floppy, serial, printer, mouse, boot menus, CD catalogue checks, PCI, PnP, APM and the POST sequence: sequences of I/O with few data properties.
- Start-up, interrupt entry and exit, stack switching and protected mode: they need a model of the processor.
- The resident part of MiSTerFS, its other functions and the command-line tools: plumbing around DOS structures.
