# Verified models of RaSCSI

RaSCSI makes a Raspberry Pi a SCSI disk target on top of image files, and serves a directory tree of the host to an
X68000. This project models its most intricate parts in Dafny and proves what they are for.

- **Sector store** (`Bytes`, `DiskImage`, `Sectors`, `DiskTrack`, `Lru`, `DiskCache`, `Disk`). A 16-slot write-back cache of
  tracks with dirty maps, partial writes and LRU eviction. The file below it may fail at any operation, and a failed write
  may have written any prefix. The cache is proved to be a flat array of sectors: `store` is the array, `Valid` ties it to
  slots and file, and every method states what it does to the array. Failed file operations are counted, and on a file that
  holds the disk nothing else makes an access fail.
- **SCSI target** (`ScsiBus`, `ScsiController`). `Process` is one step over the phase, the transfer variables and the bus
  lines. A ghost trace of the bus records every sample and every change of REQ and of the data lines, and the invariant
  derives from it alone which bytes were sent and received. A ghost `Job` remembers which sectors a READ or WRITE is about and
  what the disk and the bus were like before, so that the invariant ties the bytes on the bus to the sector array in every
  phase. `Handshake` models both sides of the
  asynchronous REQ/ACK handshake (section 6.1.5.1 of SCSI-2) as two interleaved processes; `ScsiBus` uses its outcome, seen
  from the target.
- **Host file system** (`Rings`, `FcbPool`, `HumanName`, `NameCompare`, `Directory`, `Splits`, `Search`, `Paths`, `Singles`,
  `PathCache`, `FileSearch`, `SearchAgain`, `Counterexamples`). Intrusive rings on the heap with a ghost sequence of members; the pool of
  file control blocks on such a ring; the shortening of Shift-JIS names to 18+3 bytes; the directory cache that generates
  names and refreshes itself; the wildcard search that can be resumed after a refresh; the LRU cache of 16 directories through
  which paths are resolved; and the exact conditions under which refreshes do not show, with inputs on which they do.
- **CRC-32** (`Bits`, `Crc32`). The bit loop over Ethernet frames of any length and the FCS that is appended.

The answers of the world outside are parameters or nondeterministic: bus lines of the initiator, waits that give up, results
of file operations, answers of devices to commands other than READ, WRITE and REQUEST SENSE, and the host directory tree.

Findings. These hold of the code and are proved as stated:

- `InsertRing` moves nothing when the source ring has exactly one member (`Rings.CRing.InsertRing`). A refresh of an
  unchanged directory with a single entry therefore lists that entry twice (`Directories.SingleIsListedTwice`), and the next
  one once again (`Singles.TwoBecomeOne`). Paths are not affected exactly if the second copy gets the same name
  (`Singles.SingleIsTransparent`): if the file has its own name, or if none of its variants can be used. Otherwise a path
  that leads nowhere is found after a refresh (`Counterexamples.GeneratedNameMisleads`). `PathCaches.CHostDrv.Find` is proved
  for all trees in which single entries keep their names. A search for everything finds a single file twice all the same,
  whatever its name (`SearchesAgain.SingleIsFoundTwice`).
- A refresh copies the name of a known file and looks for its extension anew. Where that is not the one the name was
  generated with, the entry is replaced although nothing has changed: an unchanged directory keeps its entries if and only
  if all names split again and there is not just one (`Splits.RefreshKeepsExactly`). Names split again if the mark of
  duplicates is no period, something of the extension remains after conversion and it does not end in a period, and where
  there is no extension nothing is dropped behind the last period (`Splits.PlainlySplit`, `Splits.PlainListingIsStable`).
  Each of these conditions is needed (`LongNameIsSplitDifferently`, `SpacedNameIsSplitDifferently`,
  `BlankNameIsSplitDifferently` and `MarkedNameIsSplitDifferently` in `Counterexamples`), two of them without any option
  being set. A search that a refresh interrupts can lose a file (`Counterexamples.SearchLosesFile`).
- For directories in which every file can be named, all searches are the same over a refresh if and only if there is not just
  one entry and all names split again (`SearchesAgain.SearchedAlikeExactly`). `FileSearches.CHostFiles.SearchAll` is proved
  for all such directories, and options and host names tell of many that they are such (`FileSearches.OrderlyIsSearchable`).
- A write that the disk refuses in the data out phase, because it is not ready, write protected or faulty, raises two errors,
  so that the bus is freed without a status byte (`ScsiController.ReceiveNext`). If only the next block is refused, there is
  one error, and it is reported.
- REQUEST SENSE for an absent LUN with allocation length 0 skips the status byte (`ScsiController.RequestSense`).
- A question mark in a cached path matches other paths, and the cache then gives the wrong directory
  (`Counterexamples.QuestionMarkMisleads`). The cache is proved for paths without question marks
  (`PathCaches.CHostDrv.Find`).
- A search resumed in a directory that was read again goes back to an earlier entry if that looks exactly like the next one
  (`Searches.ResumesInPlace`); in a directory where every file can be named, no two entries look alike
  (`Directories.NamableEntriesDiffer`).
- A directory entry that the host cannot `stat` makes every refresh report a change (`Directories.RefreshKeeps`).
- A bus reset leaves the sense data of a hard disk alone: `Reset` of a device is not virtual (`ScsiController.Reset`).

`dafny verify dfyconfig.toml` checks the whole project.

## Model

| member | source | states |
|---|---|---|
| Crc32.ComputeCrc | src/raspberrypi/devices/ctapdriver.cpp:441-451 | the two nested loops, on a 32-bit register, compute for every frame the fold of the byte step that the lemmas below are about |
| Crc32.Rx | src/raspberrypi/devices/ctapdriver.cpp:475-490 | a received frame is handed on with its four FCS bytes, least significant first, appended |
| Crc32.FcsCancelsRegister | src/raspberrypi/devices/ctapdriver.cpp:441-451 | feeding the four FCS bytes of any register value into that register leads to the complement of 0x2144DF1C, whatever the value was |
| Crc32.FrameWithFcsHasConstantCrc | src/raspberrypi/devices/ctapdriver.cpp:441-490 | for every frame, the CRC of the frame followed by the FCS bytes that Rx appends is 0x2144DF1C (clause 3.2.9 of IEEE 802.3) |
| Crc32.CrcOfNothingAndZero | src/raspberrypi/devices/ctapdriver.cpp:441-451 | the CRC of no bytes is 0 and that of a zero byte 0xD202EF8D |
| Crc32.BitUnstepInverts | src/raspberrypi/devices/ctapdriver.cpp:446-448 | the bit step has an inverse: it is a bijection of the 32-bit register |
| Crc32.FourByteBurstIsDetected | src/raspberrypi/devices/ctapdriver.cpp:441-451 | two frames of equal length that differ, and only within four consecutive bytes, never have the same CRC |
| Handshake.RunKeepsInv | src/raspberrypi/gpiobus.cpp:819-1023 | every interleaving of the two sides, with waits that may give up at any point, keeps the protocol invariant and uses up the work left |
| Handshake.ReceivesPrefix | src/raspberrypi/gpiobus.cpp:819-1023 | in both directions and every interleaving the receiver has a prefix of the bytes sent, its count is the length of that prefix, and the two counts differ by at most one |
| Handshake.DataIsStable | src/raspberrypi/gpiobus.cpp:819-1023 | whichever side moves, the data byte on the bus does not change while the receiver may sample it, and the byte sampled is the one it is about to count |
| Handshake.RunsAreBounded | src/raspberrypi/gpiobus.cpp:1257-1281 | every interleaving ends after a number of accesses bounded by the two counts |
| Handshake.NeverDeadlocks | src/raspberrypi/gpiobus.cpp:819-1023 | with equal counts and no time-out, one of the two sides can always move until both are done |
| Handshake.RunDeliversEverything | src/raspberrypi/gpiobus.cpp:819-1023 | a run with equal counts and no time-out that has come to its end has delivered all bytes, and both sides return the full count; every such run can be continued to its end |
| ScsiBus.CommandByteCount | src/raspberrypi/gpiobus.cpp:1447-1459 | command group 0 has 6 bytes, except operation code 0x05, groups 1 and 2 have 10; exactly the operation code 0xA0 has 12, and exactly the six listed ones have 16 |
| ScsiControllers.FieldsAreReceived | src/raspberrypi/controllers/scsi_controller.cpp:240-284 | the start and count of a READ or WRITE depend only on the bytes that its operation code promises, not on what earlier commands have left in the CDB |
| ScsiControllers.FieldsAreAsked | src/raspberrypi/devices/disk.cpp:931-962 | the start and count that are read from a CDB are those it asks for: in plain arithmetic of its bytes, the most significant first, 21 bits and one byte of which 0 means 256, four bytes and two, or eight and four |
| ScsiControllers.ReadOfBlockFive | src/raspberrypi/devices/disk.cpp:931-962 | READ(10) of block 5: 28 00 00 00 00 05 00 00 01 00 asks for one block from block 5 |
| ScsiBus.Bus.WaitAck | src/raspberrypi/gpiobus.cpp:1257-1281 | samples the bus until ACK is at the level, and then there is no RST; every failure is recorded, and what the wait means for the bytes on the bus |
| ScsiBus.Bus.SendHandShake | src/raspberrypi/gpiobus.cpp:926-965 | the bytes given to the initiator grow by exactly the first n bytes of the block, n is the full count unless a wait gave up, REQ is off at the end and neither phase nor data change while it is on |
| ScsiBus.Bus.ReceiveHandShake | src/raspberrypi/gpiobus.cpp:826-858 | the bytes taken from the initiator grow by exactly the first n bytes of the block, and by at most one more, whose handshake was not finished, if n is not the count; n is the full count if and only if no wait gave up, and the buffer outside the block is untouched |
| ScsiBus.Bus.FirstCommandByte | src/raspberrypi/gpiobus.cpp:706-768 | the first byte of a CDB as it was taken from the bus, behind an ICD byte if there is one |
| ScsiBus.Bus.CommandHandShake | src/raspberrypi/gpiobus.cpp:697-812 | the bytes taken from the bus are a stream whose bytes without a leading ICD byte the buffer holds, never more than the operation code promises, and fewer only after a wait gave up |
| ScsiBus.TakenIsShown | src/raspberrypi/gpiobus.cpp:826-858 | the bytes taken are those that the initiator shows at a sample with REQ on, right behind one with ACK and without RST: one such sample for each byte, in order, and none is missing |
| ScsiBus.TakenWithAck | src/raspberrypi/gpiobus.cpp:835-846 | if the initiator holds ACK while REQ is on, each byte is taken with REQ and ACK on |
| ScsiBus.GivenIsShown | src/raspberrypi/gpiobus.cpp:926-965 | the bytes given are those that the target shows at a sample with REQ and ACK on and without RST: one such sample for each byte, in order, and none is missing |
| ScsiBus.SentIsShown | src/raspberrypi/gpiobus.cpp:926-965 | the bytes sent in the data in phase are exactly those given in it |
| ScsiBus.ReceivedIsShown | src/raspberrypi/gpiobus.cpp:826-858 | the bytes received in the data out phase are among those taken in it, each once and in order |
| DiskImage.Fileio.Write | src/raspberrypi/fileio.cpp:168-182 | a write fails if and only if not all of its bytes were stored, which may be any prefix of them; nothing else of the file changes |
| Sectors.RunsAreMaximal | src/raspberrypi/devices/disk_track_cache.cpp:227-266 | the runs that Save writes are maximal runs of changed sectors, in order with a gap between them, and together they are all the changed sectors |
| Sectors.PatchedRun | src/raspberrypi/devices/disk_track_cache.cpp:241-260 | writing one run of the buffer at its image offset is the same as writing back each of its sectors |
| Sectors.CutRunIsTorn | src/raspberrypi/devices/disk_track_cache.cpp:253-257 | a run that is cut short anywhere leaves every byte of the file either old or new |
| Sectors.PatchedAgain | src/raspberrypi/devices/disk_track_cache.cpp:191-274 | a save that is repeated after a failed one ends in the very file the first would have produced |
| Sectors.TrackSector | src/raspberrypi/devices/disk_track_cache.cpp:191-274 | after writing back, a changed sector of the track is the one in the buffer and an unchanged one is as it was; on the way there unchanged sectors stay |
| Sectors.OtherSector | src/raspberrypi/devices/disk_track_cache.cpp:191-274 | a save, complete or cut short, touches no sector of another track |
| DiskTracks.DiskTrack.Load | src/raspberrypi/devices/disk_track_cache.cpp:81-189 | a track that loads holds the sectors of the file, in raw mode those at block times 2352 plus 16, with nothing marked; a track already loaded is left alone, dirty sectors included; a track that lies in the file loads unless a file operation fails |
| DiskTracks.DiskTrack.Save | src/raspberrypi/devices/disk_track_cache.cpp:191-274 | after success the file is the old one with exactly the changed sectors replaced, written as the maximal runs, each once, and all marks are clear; after a failure the file is torn between old and new and the marks stay; it fails only if a file operation does |
| DiskTracks.DiskTrack.SaveRuns | src/raspberrypi/devices/disk_track_cache.cpp:227-266 | the partial write loop issues exactly the writes of the maximal runs from left to right |
| DiskTracks.DiskTrack.ReadSector | src/raspberrypi/devices/disk_track_cache.cpp:276-299 | copies the sector to the start of the buffer and nothing else |
| DiskTracks.DiskTrack.WriteSector | src/raspberrypi/devices/disk_track_cache.cpp:301-336 | replaces one sector and marks it, unless it is the same already; every file that agreed with the unmarked sectors still does |
| Lru.Hit | src/raspberrypi/devices/disk_track_cache.cpp:474-483 | stamping a slot that holds the track keeps serial numbers in the order of the accesses |
| Lru.Miss | src/raspberrypi/devices/disk_track_cache.cpp:485-534 | replacing an empty or the least recently used slot keeps serial numbers in the order of the accesses |
| Lru.HoldsTheMostRecent | src/raspberrypi/devices/disk_track_cache.cpp:469-534 | a table in order holds exactly the last 16 distinct tracks of the history, or all of them if there are fewer |
| DiskCaches.DiskCache.HoldsLastTracks | src/raspberrypi/devices/disk_track_cache.cpp:469-534 | as long as nothing failed and the serial number has not wrapped, the cached tracks are exactly the last min(16, distinct) distinct tracks accessed |
| DiskCaches.DiskCache.UpdateSerialNumber | src/raspberrypi/devices/disk_track_cache.cpp:575-587 | counts accesses modulo the 32-bit width; on a wrap all serial numbers become 0, and in every case none is above the counter |
| DiskCaches.DiskCache.FindOldest | src/raspberrypi/devices/disk_track_cache.cpp:502-515 | the slot with the smallest serial number |
| DiskCaches.DiskCache.Save | src/raspberrypi/devices/disk_track_cache.cpp:376-390 | keeps what the cache stands for; after success the file alone holds every sector; it succeeds if and only if no file operation failed |
| DiskCaches.DiskCache.Load | src/raspberrypi/devices/disk_track_cache.cpp:541-573 | loads a track into an empty slot, without fail if the file holds the disk and no file operation fails; the slots stay distinct and what the cache stands for does not change |
| DiskCaches.DiskCache.Assign | src/raspberrypi/devices/disk_track_cache.cpp:469-534 | makes the track cached, evicting and saving if need be, without changing any logical sector, also when a file operation fails; on a file that holds the whole disk it fails only then |
| DiskCaches.DiskCache.ReadSector | src/raspberrypi/devices/disk_track_cache.cpp:424-442 | a successful read returns the logical sector; no read, successful or not, changes one; on a file that holds the whole disk, also a raw one, a read of a block on it succeeds unless a file operation fails |
| DiskCaches.DiskCache.WriteSector | src/raspberrypi/devices/disk_track_cache.cpp:444-462 | a successful write changes its logical sector and no other, a failed one changes none; on a file that holds the whole disk it succeeds unless a file operation fails |
| DiskCaches.SectorIsLastWritten | src/raspberrypi/devices/disk_track_cache.cpp:424-462 | over any run of accesses, with evictions and failures anywhere, every logical sector is the last value successfully written to it, or its first value |
| DiskCaches.ReadReturnsLastWritten | src/raspberrypi/devices/disk_track_cache.cpp:424-462 | over any run, a successful read returns the last value successfully written |
| DiskCaches.DiskCache.Serve | src/raspberrypi/devices/disk_track_cache.cpp:424-534 | a run of reads and writes of any length on a file that holds the whole disk: if no file operation fails all of them succeed, and the cache then holds exactly the last min(16, distinct) distinct tracks |
| Disks.Disk.CheckReady | src/raspberrypi/devices/primary_device.cpp:139-163 | which of reset, attention and not ready is reported, in this order, and that the report consumes reset and attention one at a time |
| Disks.Disk.Read | src/raspberrypi/devices/disk.cpp:640-658 | the sector comes from the logical disk; the range error comes exactly for a ready device and a block past the end; for an attentive disk and a block on it the read succeeds unless the file is too short or a file operation fails |
| Disks.Disk.WriteCheck | src/raspberrypi/devices/disk.cpp:660-676 | exactly when a block may be written, and which error says why not |
| Disks.Disk.Write | src/raspberrypi/devices/disk.cpp:679-702 | which of not ready, out of range and write protected is reported, in this order; otherwise the one logical sector is written, without fail if the file holds the disk and no file operation fails, or a write fault is reported and nothing changes |
| ScsiControllers.ScsiController.Process | src/raspberrypi/controllers/scsi_controller.cpp:64-144 | from every valid state, whatever the initiator does, a step ends in a valid state: one of seven phases, lines that decode to it, at least one block and offset plus length within the buffer in a transfer phase, and a READ or WRITE that has moved exactly its sectors; from a transfer phase other than message out it comes strictly closer to bus free |
| ScsiControllers.ScsiController.RunToBusFree | src/raspberrypi/rascsi.cpp:1549-1557 | from any transfer phase other than message out the loop reaches bus free after finitely many steps; without an error or time-out a READ or WRITE of n blocks takes exactly Rank = 2n + 4 steps and is complete |
| ScsiControllers.ScsiController.LinesShowPhase | src/raspberrypi/controllers/scsi_controller.cpp:240-496 | in every transfer phase of a valid state I/O is on exactly in data in, status and message in, C/D exactly in status and the message phases, MSG exactly in the message phases, and REQ is off; BSY is off exactly in bus free |
| ScsiControllers.StoredSector | src/raspberrypi/controllers/scsi_controller.cpp:1178-1191 | storing n blocks of a payload replaces exactly the n sectors of the range, each by its piece |
| ScsiControllers.FlatSector | src/raspberrypi/controllers/scsi_controller.cpp:1078-1117 | the k-th piece of what a READ sends is the k-th sector of its range |
| ScsiControllers.CompleteReadSentSectors | src/raspberrypi/controllers/scsi_controller.cpp:537-627 | a READ that ends with GOOD has sent exactly the sectors of the range its CDB asks for, in order, each as the disk holds it |
| ScsiControllers.CompleteWriteStoredPayload | src/raspberrypi/controllers/scsi_controller.cpp:629-817 | a WRITE that ends with GOOD has stored exactly what it received in the sectors of the range its CDB asks for and nothing elsewhere |
| ScsiControllers.CutWriteStoredFirstBlocks | src/raspberrypi/controllers/scsi_controller.cpp:645-662 | a WRITE whose data stops inside block k has written exactly its first k blocks |
| ScsiControllers.ScsiController.WrittenFromTheBus | src/raspberrypi/controllers/scsi_controller.cpp:629-817 | the sectors that a complete WRITE has stored are the bytes that the initiator has shown on the data lines in the data out phase, each sampled at a moment of its own while REQ was on and right after the ACK, in order |
| ScsiControllers.ScsiController.ReadOntoTheBus | src/raspberrypi/controllers/scsi_controller.cpp:537-627 | the sectors of a complete READ are the bytes that the target has shown on the data lines in the data in phase, each at a moment of its own with REQ on and ACK given, in order |
| ScsiControllers.ScsiController.StartTransfer | src/raspberrypi/devices/disk.cpp:145-157 | the job is the range that the bytes of the CDB ask for. A range not on the disk ends with CHECK CONDITION and LBA OUT OF RANGE, an empty one with GOOD. Any other starts a WRITE if and only if the disk is attentive and not protected, and a READ if it is attentive and no file operation fails |
| ScsiControllers.ScsiController.StartRead | src/raspberrypi/devices/disk.cpp:145-157 | the first sector is read and the job starts on the disk as it is, 2n + 4 steps from bus free, for an attentive disk without fail unless a file operation fails |
| ScsiControllers.ScsiController.StartWrite | src/raspberrypi/devices/disk.cpp:198-209 | the job starts on the disk as it is, 2n + 4 steps from bus free, if and only if the disk is attentive and not write protected |
| ScsiControllers.ScsiController.XferIn | src/raspberrypi/controllers/scsi_controller.cpp:1078-1117 | gets the next sector of a READ; after the check of the whole range no sector is ever out of range |
| ScsiControllers.ScsiController.XferOut | src/raspberrypi/controllers/scsi_controller.cpp:1127-1217 | hands the block to the device: the status phase is entered exactly if the device refuses the block itself, which a WRITE does exactly when the disk is not ready, write protected or faulty, never because of the range; it fails without an error if only the next block is refused |
| ScsiControllers.ScsiController.WriteBlock | src/raspberrypi/controllers/scsi_controller.cpp:1178-1204 | the received block reaches exactly its sector, or the write is refused with the error of the disk and nothing is stored; the method succeeds if and only if the write is done and the next block, if there is one, may be written |
| ScsiControllers.ScsiController.SendBlock | src/raspberrypi/controllers/scsi_controller.cpp:542-561 | a block goes out, and its bytes are those given to the initiator meanwhile, or there is an error |
| ScsiControllers.ScsiController.SendNext | src/raspberrypi/controllers/scsi_controller.cpp:563-627 | after a block: the next sector, the status, the message, the command behind a rejected message, or bus free |
| ScsiControllers.ScsiController.SendNextSector | src/raspberrypi/controllers/scsi_controller.cpp:563-585 | the next sector of a READ is ready to be sent, or a single error leads to the status phase |
| ScsiControllers.ScsiController.ReceiveBlock | src/raspberrypi/controllers/scsi_controller.cpp:645-662 | a block comes in completely, and its bytes are those taken from the initiator meanwhile, or there is an error and the blocks before it stay stored |
| ScsiControllers.ScsiController.ReceiveNext | src/raspberrypi/controllers/scsi_controller.cpp:664-817 | after a block: a WRITE to a disk that is not ready, write protected or faulty, and a MODE SELECT that is refused, raise two errors and free the bus without a status byte; a refusal of the next block alone raises one error, which is reported with CHECK CONDITION; otherwise the next block is awaited or the status phase entered |
| ScsiControllers.ScsiController.FlushUnit | src/raspberrypi/controllers/scsi_controller.cpp:1025-1067 | MODE SELECT is carried out again and may fail again; anything else is left alone |
| ScsiControllers.ScsiController.Error | src/raspberrypi/controllers/scsi_controller.cpp:498-535 | RST resets, an error in the status or message in phase frees the bus, any other leads to the status phase with CHECK CONDITION and the sense data recorded |
| ScsiControllers.SenseReportsError | src/raspberrypi/devices/primary_device.cpp:187-208 | REQUEST SENSE reports the sense key and code that the latest error has recorded, in fixed format, and zeros elsewhere |
| ScsiControllers.ScsiController.RequestSense | src/raspberrypi/devices/primary_device.cpp:108-137 | an absent LUN is reported with GOOD status, and the status byte is skipped exactly for an absent LUN with an allocation length of 0 |
| ScsiControllers.ScsiController.ExecuteCommand | src/raspberrypi/controllers/scsi_controller.cpp:286-350 | the command is dispatched to the device; a command for an absent LUN, other than INQUIRY and REQUEST SENSE, ends with INVALID LUN |
| ScsiControllers.ScsiController.EnterCommand | src/raspberrypi/controllers/scsi_controller.cpp:240-284 | a CDB is executed if and only if all the bytes its operation code promises have arrived, and then they are those taken from the initiator; otherwise, absent a reset, the status is CHECK CONDITION with ABORTED COMMAND as sense key |
| ScsiControllers.ScsiController.ObeyMessages | src/raspberrypi/controllers/scsi_controller.cpp:733-799 | what the messages sent with ATN lead to: ABORT and BUS DEVICE RESET free the bus, an extended message is rejected, IDENTIFY sets the LUN |
| ScsiControllers.FirstMessageDecides | src/raspberrypi/controllers/scsi_controller.cpp:733-799 | the first ABORT, BUS DEVICE RESET or extended message decides what becomes of the messages; without one the command follows, for the LUN of the last IDENTIFY message |
| ScsiControllers.ScsiController.XferMsg | src/raspberrypi/controllers/scsi_controller.cpp:819-831 | the 257th message overwrites the first |
| ScsiControllers.ScsiController.MessageReceived | src/raspberrypi/controllers/scsi_controller.cpp:681-805 | message out goes on exactly as long as ATN is asserted |
| ScsiControllers.ScsiController.EnterStatus | src/raspberrypi/controllers/scsi_controller.cpp:352-381 | the state and the buffer at the start of the status phase |
| ScsiControllers.ScsiController.EnterMsgIn | src/raspberrypi/controllers/scsi_controller.cpp:383-403 | the state and the buffer at the start of the message in phase |
| ScsiControllers.ScsiController.EnterMsgOut | src/raspberrypi/controllers/scsi_controller.cpp:405-431 | the state at the start of the message out phase behind a selection with ATN |
| ScsiControllers.ScsiController.Select | src/raspberrypi/controllers/scsi_controller.cpp:200-227 | the target responds only to its own bit on a bus that is not busy, and otherwise nothing changes |
| ScsiControllers.ScsiController.EnterDataIn | src/raspberrypi/controllers/scsi_controller.cpp:436-466 | the state at the start of the data in phase |
| ScsiControllers.ScsiController.EnterDataOut | src/raspberrypi/controllers/scsi_controller.cpp:468-496 | the state at the start of the data out phase |
| ScsiControllers.ScsiController.EnterBusFree | src/raspberrypi/controllers/scsi_controller.cpp:146-198 | bus free with all lines released |
| ScsiControllers.ScsiController.Reset | src/raspberrypi/controllers/scsi_controller.cpp:39-62 | the initial state, whatever came before, and the device without reset and attention condition but with the sense data of its latest error |
| Rings.CRing.Insert | src/raspberrypi/devices/cfilesystem.h:365-379 | moves a node to the front of a ring, from another ring, from being alone or from any place of the same ring; both rings stay circular and doubly linked |
| Rings.CRing.InsertTail | src/raspberrypi/devices/cfilesystem.h:382-396 | the same, to the end |
| Rings.CRing.Remove | src/raspberrypi/devices/cfilesystem.h:416-425 | takes a node out and leaves it in a ring of its own |
| Rings.CRing.InsertRing | src/raspberrypi/devices/cfilesystem.h:399-413 | moves all members to the front of the other ring in their order, unless there is exactly one: then nothing moves |
| Rings.Closed | src/raspberrypi/devices/cfilesystem.h:370-371 | linking the neighbours of a node with each other leaves a ring of the others |
| Rings.Opened | src/raspberrypi/devices/cfilesystem.h:375-378 | linking a node between two neighbours leaves a ring with it |
| Rings.Spliced | src/raspberrypi/devices/cfilesystem.h:406-409 | the members of one ring between the root and the members of another make one ring |
| FcbPools.FullWhenLastIsUsed | src/raspberrypi/devices/cfilesystem.cpp:2628-2648 | in an orderly pool the last entry is in use exactly when all are |
| FcbPools.CHostFcbManager.Alloc | src/raspberrypi/devices/cfilesystem.cpp:2628-2648 | fails exactly when all 100 entries are in use; otherwise the new file is the only change |
| FcbPools.CHostFcbManager.Search | src/raspberrypi/devices/cfilesystem.cpp:2650-2666 | finds the entry of a key if and only if it is in use, and keeps the pool orderly while moving it to the front |
| FcbPools.CHostFcbManager.Free | src/raspberrypi/devices/cfilesystem.cpp:2668-2679 | the file is gone, the others are not, and the entry is at the end |
| FcbPools.CFileSys.CreateFile | src/raspberrypi/devices/cfilesystem.cpp:3231-3292 | which code is returned for every state of the pool and every answer of the host; only success changes the open files, by the new one |
| FcbPools.CFileSys.OpenFile | src/raspberrypi/devices/cfilesystem.cpp:3299-3361 | which code is returned for every state of the pool and every answer of the host; only success changes the open files, by the new one |
| FcbPools.CFileSys.CloseFile | src/raspberrypi/devices/cfilesystem.cpp:3368-3397 | closes the file of the key if there is one, and no other |
| Splits.ExtensionStartsAt | src/raspberrypi/devices/cfilesystem.cpp:1140-1161 | an extension starts exactly at a period that is not the first byte, has one to three bytes behind it, and is the last one, or the one at byte 18 of a name of 20 to 22 bytes that also ends in a period |
| HumanNames.PreparedShape | src/raspberrypi/devices/cfilesystem.cpp:883-963 | replacing and dropping characters keeps two-byte characters whole and leaves an extension of a period and one to three bytes |
| HumanNames.ReplacedInPlace | src/raspberrypi/devices/cfilesystem.cpp:888-945 | if no option drops anything and no space leads, the name keeps its length, and underscores stand exactly for the spaces, equals and plus signs, hyphens and periods, at the front and elsewhere, whose option is set |
| HumanNames.NothingIsLeft | src/raspberrypi/devices/cfilesystem.cpp:890-906 | spaces, equals and plus signs are gone if they are to be dropped or replaced, and underscores appear only for bytes to be replaced and not to be dropped |
| HumanNames.HyphensInFront | src/raspberrypi/devices/cfilesystem.cpp:907-919 | hyphens to be dropped or replaced are gone, those at the front by an option of their own |
| HumanNames.PeriodsInFront | src/raspberrypi/devices/cfilesystem.cpp:920-935 | the same for periods before the extension |
| HumanNames.PiecesAreApart | src/raspberrypi/devices/cfilesystem.cpp:979-1022 | the two pieces of a shortened base name fit, do not overlap and are cut between characters |
| HumanNames.ShortenedFits | src/raspberrypi/devices/cfilesystem.cpp:834-1052 | every converted name has at most 18 base bytes and at most 4 extension bytes in whole characters, its pieces are the two ends of the base name, and the first character survives |
| HumanNames.ShortenedKeepsEnds | src/raspberrypi/devices/cfilesystem.cpp:965-1022 | the end of a base name starts at its earliest period behind the first byte that leaves room for the first character, and is empty only if there is none; its start goes up to the first period behind the first character, to where the base name ends, or as far as there is room, but for a byte where the next character has two |
| Counterexamples.LongNameKeepsItsEnds | src/raspberrypi/devices/cfilesystem.cpp:965-977 | without options, This_is_a.Very.Long.Filename.txt becomes This.Long.Filename.txt |
| HumanNames.FittingBaseStays | src/raspberrypi/devices/cfilesystem.cpp:834-1052 | a name whose base fits is not shortened: its Human68k name is what replacing and dropping characters leave of it |
| HumanNames.FittingNamesStay | src/raspberrypi/devices/cfilesystem.cpp:834-1052 | a name whose base fits, without options, count, leading spaces and trailing spaces, is unchanged, and correct if its base does not end in a space |
| HumanNames.VariantsDiffer | src/raspberrypi/devices/cfilesystem.cpp:855-875 | the 36 numbered variants of a host name are pairwise distinct |
| HumanNames.NumberedPieces | src/raspberrypi/devices/cfilesystem.cpp:855-1022 | the 36 numbered variants of a host name differ in their numbers only |
| HumanNames.NumbersAreDigitsAndLetters | src/raspberrypi/devices/cfilesystem.cpp:855-875 | the 36 variants are numbered 0 to 9 and A to Z behind the mark, which is @ unless another one is set |
| HumanNames.HumanShape | src/raspberrypi/devices/cfilesystem.cpp:1024-1051 | a converted name has no zero bytes, and a correct one has a base that does not end in a space |
| HumanNames.CHostFilename.ConvertHuman | src/raspberrypi/devices/cfilesystem.cpp:834-1052 | the conversion, step by step, gives the name, the place of its extension and the verdict that ShortenedKeepsEnds and the other lemmas above are about |
| HumanNames.CHostFilename.Shorten | src/raspberrypi/devices/cfilesystem.cpp:979-1022 | the scans for the cut, the second piece and the character boundary find the two ends that ShortenedKeepsEnds describes |
| HumanNames.CHostFilename.MakeNumber | src/raspberrypi/devices/cfilesystem.cpp:855-875 | the mark and the last five digits to base 36 |
| HumanNames.CHostFilename.ConvertCharacters | src/raspberrypi/devices/cfilesystem.cpp:883-963 | the loop over the host name, and what it does to the extension |
| NameCompares.Compare | src/raspberrypi/devices/cfilesystem.cpp:1271-1341 | returns 0 exactly for a name that is no longer than the pattern and at each place has the same byte, or a question mark stands there, or no trail byte is on either side and the bytes are the same letter in the two cases, if case does not matter, or two slashes of either kind; past its end only a question mark or 0 may stand |
| NameCompares.AsciiNamesLookAlike | src/raspberrypi/devices/cfilesystem.cpp:1271-1341 | ASCII names without question marks match exactly if they have one length and at each place the same byte, the same letter 0x20 apart where case does not matter, or slashes of either kind |
| NameCompares.PlainMatch | src/raspberrypi/devices/cfilesystem.cpp:1271-1341 | without question marks, names match exactly when they look the same as compared: matching is an equivalence |
| NameCompares.QuestionMarksMatchMore | src/raspberrypi/devices/cfilesystem.cpp:1331-1335 | with question marks matching is not transitive |
| Directories.ProperIfNamable | src/raspberrypi/devices/cfilesystem.cpp:1600-1624 | a new file gets a correct name that nothing else has exactly if its own name will do or one of its 36 variants is free |
| Directories.NameForTakesFirst | src/raspberrypi/devices/cfilesystem.cpp:1600-1624 | a new file gets its own name if that needs no change or is free, else the first of its 36 variants that is free, and the last one if none is |
| Directories.FreeIfUnlike | src/raspberrypi/devices/cfilesystem.cpp:1389-1416 | a name is in use exactly if it is that of a host file or an earlier entry has a name of its length that fits it at each place |
| Directories.VisibleExactly | src/raspberrypi/devices/cfilesystem.cpp:1569-1575 | the root leaves out its two special entries and nothing else, and any other directory nothing |
| Directories.FirstReadingTellsApart | src/raspberrypi/devices/cfilesystem.cpp:1584-1624 | the first refresh gives pairwise distinct Human68k names, and no generated one is the name of a host file, unless a file finds all its variants in use |
| Directories.PackedTellsApart | src/raspberrypi/devices/cfilesystem.cpp:1079-1107 | different names have different directory entries |
| Directories.NamableEntriesDiffer | src/raspberrypi/devices/cfilesystem.cpp:1584-1627 | in a directory where every file can be named, all directory entries differ |
| Directories.ReadingListsAll | src/raspberrypi/devices/cfilesystem.cpp:1556-1671 | a refresh appends every entry that the host knows something of, once and in the order of the listing |
| Directories.ReadingDescribesAll | src/raspberrypi/devices/cfilesystem.cpp:1556-1671 | every entry that a refresh lists has the size, date and time of its host file as it is now, the read-only flag exactly if that has it, and one of directory and archive exactly as that is one, and its name in two parts, filled up to eight bytes with spaces and then with zeros |
| Directories.NameForAgain | src/raspberrypi/devices/cfilesystem.cpp:1584-1624 | a refresh of an unchanged directory finds for a file the name it has |
| Directories.RefreshKeeps | src/raspberrypi/devices/cfilesystem.cpp:1535-1693 | a refresh of an unchanged directory keeps its entries, the very same nodes, if there is not just one of them and all names split again |
| Directories.SingleIsListedTwice | src/raspberrypi/devices/cfilesystem.cpp:1535-1693 | a refresh of an unchanged directory with a single entry lists that entry twice |
| Splits.VariantSplits | src/raspberrypi/devices/cfilesystem.cpp:834-1070 | every correct Human68k name of a plainly split host name has its extension where a look at the name finds it |
| Splits.PlainListingIsStable | src/raspberrypi/devices/cfilesystem.cpp:1535-1693 | in a directory of plainly split files that can all be named, the names that are copied in a refresh are split as they were |
| Splits.SameEntryIfSplitAgain | src/raspberrypi/devices/cfilesystem.cpp:1079-1161 | the directory entry of a name, split as it was generated and as it is copied, is the same exactly if the extension is found again |
| Splits.RefreshKeepsExactly | src/raspberrypi/devices/cfilesystem.cpp:1535-1693 | a refresh of an unchanged directory in which every file can be named keeps its nodes if and only if there is not just one of them and all names split again |
| Splits.ReplacedUnlessSplitAgain | src/raspberrypi/devices/cfilesystem.cpp:1595-1660 | an entry whose name does not split again is replaced in a refresh by one that is split as a look at the name shows |
| Singles.NumberedIsCorrect | src/raspberrypi/devices/cfilesystem.cpp:1024-1051 | if one variant of a name can be used, all numbered ones can |
| Singles.MatchedOnce | src/raspberrypi/devices/cfilesystem.cpp:1271-1341 | a name is matched by at most one numbered variant of another, also by one with question marks |
| Singles.NamedBesideItself | src/raspberrypi/devices/cfilesystem.cpp:1584-1624 | the only file of a directory, named beside itself, gets the same name exactly if its own name will do or none of its variants ever will; otherwise it gets a name under which nothing was found before |
| Singles.SingleIsTransparent | src/raspberrypi/devices/cfilesystem.cpp:1535-1693 | the refresh of a directory with a single entry shows nothing else exactly if the file keeps its name; otherwise the second copy can be found under a new name |
| Singles.TwoBecomeOne | src/raspberrypi/devices/cfilesystem.cpp:1535-1693 | the next refresh of such a directory lists the entry once again |
| Singles.ShownIsFound | src/raspberrypi/devices/cfilesystem.cpp:1389-1416 | whether the single entry is listed once or twice, a name is found exactly if a first reading has it, and it is the same file |
| Directories.FindFilename | src/raspberrypi/devices/cfilesystem.cpp:1389-1416 | the first entry with a matching name and attribute |
| Directories.ChooseName | src/raspberrypi/devices/cfilesystem.cpp:1584-1624 | the loop of up to 36 rounds gives the name that the lemmas are about |
| Directories.ReadOne | src/raspberrypi/devices/cfilesystem.cpp:1576-1671 | one entry of the listing: named, compared with the cached one, and appended |
| Directories.Refresh | src/raspberrypi/devices/cfilesystem.cpp:1535-1693 | the refresh, loop by loop, gives the names that the lemmas are about, and a new identifier exactly if something has changed |
| Searches.Resume | src/raspberrypi/devices/cfilesystem.cpp:1437-1466 | a search goes on at its node if the directory has not been read again, else at the first entry that looks like the next one, else behind as many entries as were passed |
| Searches.ResumesInPlace | src/raspberrypi/devices/cfilesystem.cpp:1437-1466 | a search goes on where it was left, also in a directory that was read again, exactly if no earlier entry looks like the next one |
| Searches.FitsName | src/raspberrypi/devices/cfilesystem.cpp:1472-1487 | whether base name, extension and attribute fit; an extension pattern of three question marks fits none too |
| Searches.FitsIfAlike | src/raspberrypi/devices/cfilesystem.cpp:1472-1487 | an ASCII pattern without question marks fits exactly the files with one of the attributes whose names are split at the same place and look like it at each place |
| Searches.QuestionMarksFitAll | src/raspberrypi/devices/cfilesystem.cpp:1472-1487 | eighteen question marks and an extension of three fit every file that has one of the attributes |
| Searches.FindFilenameWildcard | src/raspberrypi/devices/cfilesystem.cpp:1427-1504 | finds the next file that fits from where the search goes on, whatever the directory is now, and leaves the search behind it |
| FileSearches.NextIsFirst | src/raspberrypi/devices/cfilesystem.cpp:1468-1504 | the next file found is the first of those that are left |
| FileSearches.StaysOnCourse | src/raspberrypi/devices/cfilesystem.cpp:1438-1466 | whether the directory is still cached, was refreshed or was dropped and read again, the search stands where it stood |
| FileSearches.OrderlyIsSearchable | src/raspberrypi/devices/cfilesystem.cpp:1535-1693 | in a host directory with other than one entry, whose files can all be named and are split plainly, all entries look different and a refresh keeps them |
| FileSearches.CHostFiles.SetPath | src/raspberrypi/devices/cfilesystem.cpp:2129-2138 | a search of a searchable directory starts before the first entry |
| FileSearches.CHostFiles.FindNext | src/raspberrypi/devices/cfilesystem.cpp:733-775 | the next file is found through the cache of directories |
| FileSearches.CHostFiles.NFiles | src/raspberrypi/devices/cfilesystem.cpp:3187-3224 | one file of those left, or none if none is left |
| FileSearches.CHostFiles.SearchAll | src/raspberrypi/devices/cfilesystem.cpp:3095-3224 | from start to end, with any other lookups and refreshes between the calls, every entry of a searchable directory that fits is returned exactly once in listing order, and then nothing |
| SearchesAgain.SingleIsFoundTwice | src/raspberrypi/devices/cfilesystem.cpp:1427-1504 | in every directory with a single entry, a search for everything finds the file, and a second time if the directory is refreshed in between |
| SearchesAgain.RereadingResplits | src/raspberrypi/devices/cfilesystem.cpp:1556-1671 | a refresh of an unchanged directory in which every file can be named keeps each entry whose name splits again, and replaces each other one by an entry with the same name, split as a look at it shows |
| SearchesAgain.UnstableIsFoundLater | src/raspberrypi/devices/cfilesystem.cpp:1427-1504 | in every directory in which all files can be named but some name does not split again, a file is found under its own name only after a refresh |
| SearchesAgain.SearchedAlikeExactly | src/raspberrypi/devices/cfilesystem.cpp:1427-1693 | for a directory in which every file can be named: for every pattern, wherever the search stands, it finds the same over a refresh, if and only if there is not just one entry and all names split again |
| Paths.AlikeWalk | src/raspberrypi/devices/cfilesystem.cpp:621-724 | paths that look alike lead to the same host directory |
| Paths.EnterTakesFirst | src/raspberrypi/devices/cfilesystem.cpp:696-724 | a component leads on into the first directory whose name fits it, and into nothing else; the last component is found if any entry has a name that fits it |
| Paths.SameListing | src/raspberrypi/devices/cfilesystem.cpp:1535-1693 | what a directory lists does not depend on where its nodes are allocated |
| Paths.RefreshShowsSame | src/raspberrypi/devices/cfilesystem.cpp:1535-1693 | a refresh of an unchanged directory, unless it has just one entry, shows the same names and attributes, and if nothing is reported as changed it keeps the nodes |
| Paths.ReachesOn | src/raspberrypi/devices/cfilesystem.cpp:637-718 | the path to a directory, as it is put together on the way, leads to the directory |
| PathCaches.RefreshBuilds | src/raspberrypi/devices/cfilesystem.cpp:1535-1693 | a refresh of a directory in the cache shows what a first reading would, a single entry perhaps twice, and keeps the nodes unless the identifier is new |
| PathCaches.CHostDrv.SeparateCopyFilename | src/raspberrypi/devices/cfilesystem.cpp:2070-2112 | where the first component of a path ends, or that it is not valid |
| PathCaches.CHostDrv.FindCache | src/raspberrypi/devices/cfilesystem.cpp:553-565 | a cached directory whose path matches, if there is one |
| PathCaches.CHostDrv.Renew | src/raspberrypi/devices/cfilesystem.cpp:661-678 | a new entry, or the least recently used one when there are 16 |
| PathCaches.CHostDrv.Visit | src/raspberrypi/devices/cfilesystem.cpp:659-689 | the directory is in the cache, up to date and at the front; the count is the length of the ring and at most 16 |
| PathCaches.CHostDrv.Descend | src/raspberrypi/devices/cfilesystem.cpp:637-718 | one component, through the cache, leads where reading the directory afresh would |
| PathCaches.CHostDrv.MakeCache | src/raspberrypi/devices/cfilesystem.cpp:621-724 | the whole path, through the cache, leads where a walk that reads every directory afresh would |
| PathCaches.CHostDrv.CopyCache | src/raspberrypi/devices/cfilesystem.cpp:576-599 | a whole path found in the cache leads there too |
| PathCaches.CHostDrv.CleanCache | src/raspberrypi/devices/cfilesystem.cpp:478-486 | marking everything to be read again changes nothing else |
| PathCaches.CHostDrv.Find | src/raspberrypi/devices/cfilesystem.cpp:733-751 | a path without question marks resolves to the directory that a walk reading every component afresh finds, and fails when that fails, whatever was looked up before |
| PathCaches.CHostDrv.FindFile | src/raspberrypi/devices/cfilesystem.cpp:733-775 | a file is found exactly if the walk and a first reading of its directory have it, with the same host path and the same entry |
| Counterexamples.LongNameIsSplitDifferently | src/raspberrypi/devices/cfilesystem.cpp:1140-1161 | without any option, `ab.defghijklmnopq .x.` and its like become `ab@0.x.` with the extension at byte 4, and are copied without an extension |
| Counterexamples.SpacedNameIsSplitDifferently | src/raspberrypi/devices/cfilesystem.cpp:890-963 | where spaces are dropped, `foo.a b c` and its like become `foo.abc` without an extension, and are copied with the extension at byte 3 |
| Counterexamples.BlankNameIsSplitDifferently | src/raspberrypi/devices/cfilesystem.cpp:948-963 | without any option, `a.b. ` and its like become `a.b` without an extension, and are copied with the extension at byte 1 |
| Counterexamples.MarkedNameIsSplitDifferently | src/raspberrypi/devices/cfilesystem.cpp:855-875 | with a period as mark, the first variant of a one-letter name has no extension and is copied with one |
| Counterexamples.SearchLosesFile | src/raspberrypi/devices/cfilesystem.cpp:1427-1504 | the search for `a?@0.x?` in a root directory with `aa@0.xy` and `ab.defghijklmnopq .x.` finds both files, but only the first if the directory is refreshed in between |
| Counterexamples.GeneratedNameMisleads | src/raspberrypi/devices/cfilesystem.cpp:621-724 | in a root directory with a single directory of a long name, the path through the next variant of its name leads nowhere at first, and into the directory after a refresh |
| Counterexamples.QuestionMarkMisleads | src/raspberrypi/devices/cfilesystem.cpp:553-599 | in a root directory with two directories, the path `/?/` leads to the first one, and when it is cached it is taken for the path to the second one |

## Left out

- Timing, delays, interrupt masking, pin tables and the parity and data tables of the GPIO driver: hardware.
- ScsiControllers.ScsiController.Error: does not sample the bus again before it tests RST, and neither does `Execute`; the
  model lets a line change only in `Acquire` at the start of a step and in handshakes.
- Devices other than hard disks with sectors of 512 to 4096 bytes at LUN 0: DaynaPort, host bridge, printer, CD-ROM and MO
  specifics, byte transfer, several LUNs.
- VERIFY, SEEK, READ LONG, WRITE LONG, mode pages, ejecting, locking and inserting media, reservations; these commands are answered by
  `OtherCommand` with any of refusing, nothing to transfer, or a single block.
- Synchronous transfer negotiation: `syncenable` is never set.
- The track cache keeps the number of blocks as `int` (disk_track_cache.h:98). From 2^31 blocks on (1 TiB of 512-byte sectors)
  that number is negative, so that `DiskCache::Load` violates its own assertion on the number of sectors (line 549 of
  disk_track_cache.cpp) for the first track, and overflows for later ones; block numbers passed to `ReadSector` and
  `WriteSector` turn negative, too. The model's numbers are unbounded and speak of smaller disks only.
- Memory allocation failure in tracks, buffers and directory entries.
- The flush when a disk object is destroyed; persistence is stated for `Save` only.
- ScsiControllers.ScsiController.FlushUnit: does not say what MODE SELECT changes in the device, because mode pages are not
  modelled.
- Splits.PlainListingIsStable: a sufficient condition on options and host names; the exact one speaks of the generated names
  (`Splits.RefreshKeepsExactly`).
- FileSearches.CHostFiles.SetPath: speaks of directories without a single entry or names that do not split again, because
  elsewhere searches differ over a refresh (`SearchesAgain.SearchedAlikeExactly`), and of entries that all look different, as
  they do where every file can be named.
- FileSearches.CHostFiles.SearchAll: the same.
- PathCaches.CHostDrv.Find: speaks of trees in which a directory with a single entry keeps its name when it is named beside
  itself, and of paths without question marks, because in others it can go wrong.
- Directories: the ring of file names in a directory is a sequence of nodes with addresses; its links are those of `Rings`
  but are not modelled again. File names are compared with the bytes the host shows, without conversion between UTF-8 and
  Shift-JIS.
- The pool of 20 search buffers, which reuses the oldest one even if it is in use, and searches for volume labels.
- Changes of the host tree while it is served, time stamps and their restoration, write access to directories, reading and
  writing of opened files.
- The last component of a path without a slash at its end is only checked to exist, as in the code; the file in the directory
  is looked up separately (`PathCaches.CHostDrv.FindFile`).
- Tap and bridge setup, the command line, the web and protobuf interfaces, the drivers for the X68000.
