# Firmware storage and loaders, verified

Models in Dafny of the parts of this platform repository that keep or move data, with
proofs of what they promise. Each model follows the C code branch by branch, with its
constants, its 32- and 64-bit arithmetic where that matters, and its defects; where a
promise fails, a lemma shows it and another says exactly when it holds.

`dafny verify dfyconfig.toml` checks everything.

## What is modelled

**Boot monitor file system** (`BootMon*.dfy`). Files lie in contiguous block ranges of
NOR flash, each with a 136-byte description in the tail of its last block. Writes are
buffered as regions and replayed by a flush; new files are placed first-fit over a list
meant to be in disk order; a mount rescans the block tails.

- `BootMonChecksum`, `BootMonImage`: the end-around-carry checksum and the description.
- `BootMonVolume`: the state, and a flush as a plan: the list of disk writes with the
  record as it stands at each, so that a disk failing at any write is one more outcome.
- `BootMonAllocation`, `BootMonRoom`: the block layout, first fit, and exactly which
  flushes keep the layout. `BootMonRepair` is not the code as written: it is the flush
  with four marked repairs, for which the layout holds in every run unconditionally.
- `BootMonFlush`, `BootMonMount`, `BootMonBuffer`, `BootMonRetained`, `BootMonSession`,
  `BootMonReads`: flush as replay, flash against records, the mount scan, the buffer as a
  plain byte file over whole sessions with a failing disk, and when reads are right. `BootMonTails`, `BootMonStale`: which block tails a flush leaves recognised.
- `BootMonOperations`, `BootMonRuns`, `BootMonNames`, `BootMonDurability`,
  `BootMonRemounts`: all calls as steps with their failures, and what holds over whole
  runs: the layout, distinct names, written bytes read back, remounting.
- `BootMonRing`: the list as linked entries. `BootMonDriver`: the driver itself, a class
  whose methods update list and flash in place and are proved to be the modelled steps.

**SD/eMMC command engine** (`SdMmc*.dfy`). `SdMmcEngine` is a class over a card and a
host controller that may answer anything: sending, waiting, recovery, soft reset,
identification, RPMB access, published protocols. Its methods are mutually recursive;
the measure is the remaining recovery budget and a rank. The ghost field `log` is the
sequence of commands the card accepted; `SdMmcHost` keeps what was asked of the host
controller, `SdMmcScripts` has the sequences that operations send and the card's state
machine, `SdMmcTally` the reasons for failures and the reports of a reset. `SdMmcBlockIo` is the chunk and retry loop.

**Translators.** `FdtDump`: the device-tree dump (section 5.4 of the Devicetree
Specification). `ElfLoad`: ELF segments to a load list to memory (chapter 5, Program
Header, of the System V gABI). `SparseImage`: the Android sparse-image writer.
`RdkConfig`: the configuration parser.

`Bytes`, `Options` and `ByteStore` hold what they share: words and byte orders, optional
values, and sequences of writes into a store.

Disk, card, host controller, boot services and allocators are the environment: every
call may fail, and what a failed write leaves in its own range is arbitrary. Each counts
its failures in a ghost field, so that the contracts also say what happens without one:
an operation fails only if the count has risen, or for a reason that they name.

## Where the code departs from its stated intent

- `BlockEnd` is start + (size+136) / block size, which takes one block too many when the
  division is exact, and no space check reserves that block
  (`ExactFillOverruns`, `RoundedFits`).
- A new file goes to the list head, and the end-of-media case leaves it there although
  the list must be in disk order (`HeadInsertionOverlaps`).
- `FileEnd` is not refreshed in the flush loop (`RewritingTheHeadClobbers`).
- A list neighbour that was never flushed counts as starting at block 0
  (`UnflushedNeighbour`); a size that no region accounts for, such as that of an empty
  write past the end, is described without any space check (`EmptyWriteUnchecked`,
  `EmptyWriteOverlaps`).
- The final rewrite does not erase the description before it: after a shrink the old one
  stays in flash, after rewriting the head of a longer file that of the last appended
  region (`DescriptionLeftBehind`, `HeadLastLosesRemount`).
- A checksum mismatch does not make a description invalid (`BootMonFsIsImageValid`).
- A mount that cannot read a block reports success with the files before it
  (`BootMonFsInitialize`); a close ignores the status of its flush (`FailedCloseStrands`),
  and so does a read, which then returns other bytes with success (`ReadsRightExactly`).
- A rename that is refused leaves the new size in place (`RefusedRenameResizesExactly`).
- SoftReset overwrites its error status while cleaning up (`FailureMaskedExactly`,
  `PublishingMaskedExactly`, `MaskedNestedReset`).
- The comment on CheckCardsCallback resets a slot by whether it is initialised; the code
  goes by the media's record of a card, so a card whose initialisation failed is not
  tried again while it stays (`CheckCardsCallback`).
- IoBlocks goes on after a chunk has failed three times and returns the last chunk's
  status (`AllOrErrorExactly`); it divides by a block size that a failed chunk's recovery
  may have set to 0 (`ZeroBlockSizeMisplaces`); its range check wraps
  (`SpanAcceptedExactly`), and a span so accepted goes to its number modulo 2^32
  (`IoBlocks`).
- The payload of a sparse CRC32 chunk is not skipped (`Crc32NotSkipped`); sizes are
  multiplied in 32 bits (`SizeCheckExactly`).
- The configuration scan and the device-tree walk trust their input to end: reading
  outside the buffer is a separate outcome of both models. The scan needs three NULs
  behind the file (`StaysInsideExactly`); RdkFile.c:346-347 allocates exactly the file, so
  in the code there are none.
- The physical size of a file that fills media of 4 GiB is zero (`PhysicalSizeExactly`).

## Model

| member | source | states |
|---|---|---|
| `BootMonChecksum.BootMonFsChecksum` | Platform/ARM/Drivers/BootMonFs/BootMonFsImages.c:24-51 | the wrapping UINT32 accumulator loop computes the complement of the end-around-carry sum of all words |
| `BootMonChecksum.EndAroundUnique` | Platform/ARM/Drivers/BootMonFs/BootMonFsImages.c:43-47 | that sum is the one word congruent to the word sum modulo 2^32-1 that is zero only when the sum is |
| `BootMonChecksum.OrderIndependent` | Platform/ARM/Drivers/BootMonFs/BootMonFsImages.c:24-51 | the checksum depends on the multiset of words, not on their order |
| `BootMonChecksum.AllOnesOnlyForZeros` | Platform/ARM/Drivers/BootMonFs/BootMonFsImages.c:50 | the checksum is all ones only when every word is zero |
| `BootMonChecksum.SelfChecking` | Platform/ARM/Drivers/BootMonFs/BootMonFsImages.c:72-84 | the checksum placed in the zeroed slot brings the accumulator of the whole to all ones |
| `BootMonChecksum.SingleWordDetection` | Platform/ARM/Drivers/BootMonFs/BootMonFsImages.c:24-51 | a change of one word goes unnoticed if and only if it swaps 0 and all ones beside a non-zero word |
| `BootMonImage.CodecInverse` | Platform/ARM/Drivers/BootMonFs/BootMonFsHw.h:40-55 | the 136-byte little-endian layout and the record are inverse to each other, both ways |
| `BootMonImage.BootMonFsComputeFooterChecksum` | Platform/ARM/Drivers/BootMonFs/BootMonFsImages.c:53-89 | the in-place update sets Attributes to 1 and the checksum over the record with unused regions and the old checksum blanked |
| `BootMonImage.ChecksumIgnores` | Platform/ARM/Drivers/BootMonFs/BootMonFsImages.c:72-81 | records that differ only in unused regions, the old checksum or the attributes get the same checksum |
| `BootMonImage.ChecksumIdempotent` | Platform/ARM/Drivers/BootMonFs/BootMonFsImages.c:53-89 | recomputing a footer checksum changes nothing |
| `BootMonImage.ChecksumSelfChecking` | Platform/ARM/Drivers/BootMonFs/BootMonFsImages.c:83-84 | the words of a checksummed record with its regions in use sum to all ones |
| `BootMonImage.BootMonFsIsImageValid` | Platform/ARM/Drivers/BootMonFs/BootMonFsImages.c:91-136 | accepts exactly signatures, version/offset pair and block range; a checksum mismatch is reported beside the verdict and never part of it |
| `BootMonImage.ImageBytes` | Platform/ARM/Drivers/BootMonFs/BootMonFsImages.c:92-136 | in terms of the bytes in flash: recognised if and only if they hold HSLFTOOF, the offset and version of either footer, and a block range that ends at this block |
| `BootMonImage.NameOfCopy` | Platform/ARM/Drivers/BootMonFs/BootMonFsOpenClose.c:104-105 | the name read back from the footer is the one copied in, whatever follows its terminator |
| `BootMonImage.DescribeIsImage` | Platform/ARM/Drivers/BootMonFs/BootMonFsOpenClose.c:76-139 | a written description is recognised, stable under recomputation and named; of the regions only the first one's checksum, offset and size change |
| `BootMonImage.DescribeRange` | Platform/ARM/Drivers/BootMonFs/BootMonFsOpenClose.c:99-119 | and records the start block, the end block start + (size+136)/blockSize and the data size, when nothing is truncated |
| `BootMonImage.DescribeOffset` | Platform/ARM/Drivers/BootMonFs/BootMonFsOpenClose.c:118 | the data's address is recorded |
| `BootMonAllocation.FindFromIsFirstFit` | Platform/ARM/Drivers/BootMonFs/BootMonFsOpenClose.c:176-210 | from any point of the walk on, the answer of the search is a first fit |
| `BootMonAllocation.FindSpaceIsFirstFit` | Platform/ARM/Drivers/BootMonFs/BootMonFsOpenClose.c:154-211 | on a disk-ordered list the answer is block-aligned, free and inside the media, no lower address - aligned or not - is free, and VOLUME_FULL means that no address is |
| `BootMonAllocation.RelinkIsOrigin` | Platform/ARM/Drivers/BootMonFs/BootMonFsOpenClose.c:193-198 | which entry of the old list each entry of the relinked one is |
| `BootMonAllocation.RelinkKeepsLayout` | Platform/ARM/Drivers/BootMonFs/BootMonFsOpenClose.c:193-198 | moving an unflushed entry in front of an entry on disk keeps the files on disk in order |
| `BootMonAllocation.PlaceKeepsLayout` | Platform/ARM/Drivers/BootMonFs/BootMonFsOpenClose.c:300-312 | placing a file keeps the layout and yields a block-aligned start |
| `BootMonAllocation.PlanRegionsTracked` | Platform/ARM/Drivers/BootMonFs/BootMonFsOpenClose.c:316-413 | at every point of the region loop the record is the old one or one written for a size the buffer reaches, starting at the file's block |
| `BootMonAllocation.FinalRecord` | Platform/ARM/Drivers/BootMonFs/BootMonFsOpenClose.c:316-424 | the record at the end of a successful flush gives Info.FileSize and its rounded block range, or is the old one if nothing was to be rewritten |
| `BootMonAllocation.FlushKeepsLayoutExactly` | Platform/ARM/Drivers/BootMonFs/BootMonFsOpenClose.c:249-431 | after a flush that reports success the layout holds if and only if no description was written or the rounded-up extent had room where the code put the file |
| `BootMonAllocation.FlushWithRoomKeepsLayout` | Platform/ARM/Drivers/BootMonFs/BootMonFsOpenClose.c:249-431 | with room for everything the buffer reaches, success, VOLUME_FULL and a device error at any write all keep the layout |
| `BootMonRoom.RoundedFits` | Platform/ARM/Drivers/BootMonFs/BootMonFsOpenClose.c:99-103 | one block too many: rounded-up blocks fit a gap exactly when the bytes fit it strictly |
| `BootMonRoom.RoomForNewFile` | Platform/ARM/Drivers/BootMonFs/BootMonFsOpenClose.c:191-207 | a new file has room if and only if it does not fill its gap to the byte and, at the end of the media, no file on disk is listed behind it |
| `BootMonRoom.RoomForOldFile` | Platform/ARM/Drivers/BootMonFs/BootMonFsOpenClose.c:356-374 | an existing file has room if and only if its rounded extent ends before every later file on disk and the media's end |
| `BootMonRoom.OwnChecksSuffice` | Platform/ARM/Drivers/BootMonFs/BootMonFsOpenClose.c:356-379 | the code's own checks imply room for an existing file whose list neighbour is on disk and none of whose sizes fills whole blocks |
| `BootMonRoom.ExactFillOverruns` | Platform/ARM/Drivers/BootMonFs/BootMonFsOpenClose.c:103 | growing to fill the gap to the byte passes the check and has no room (for every such volume) |
| `BootMonRoom.UnflushedNeighbour` | Platform/ARM/Drivers/BootMonFs/BootMonFsOpenClose.c:361-374 | before a never flushed list neighbour the check passes, whatever lies behind, if and only if the file does not start at block 0 |
| `BootMonRoom.PhysicalSizeExactly` | Platform/ARM/Drivers/BootMonFs/BootMonFsDir.c:69-82 | the 32-bit physical size of a file on disk is right unless the file fills media of 4 GiB; then it is zero |
| `BootMonRoom.HeadInsertionOverlaps` | Platform/ARM/Drivers/BootMonFs/BootMonFsOpenClose.c:680 | a file inserted at the list head before one flushed elsewhere is placed over it by the end-of-media case |
| `BootMonRoom.EmptyWriteUnchecked` | Platform/ARM/Drivers/BootMonFs/BootMonFsOpenClose.c:316-424 | an empty write past the end is flushed with success at any size: no space is checked |
| `BootMonRoom.EmptyWriteOverlaps` | Platform/ARM/Drivers/BootMonFs/BootMonFsOpenClose.c:398-424 | with a size that reaches the next file on disk such a flush has no room and breaks the layout |
| `BootMonFlush.BytesOfStages` | Platform/ARM/Drivers/BootMonFs/BootMonFsOpenClose.c:316-413 | every byte of flash after the region loop, as description over data over erasure, region by region |
| `BootMonFlush.FlushIsReplayExactly` | Platform/ARM/Drivers/BootMonFs/BootMonFsOpenClose.c:249-431 | a successful flush leaves every byte of the file, for every content of media and buffers, the last one written to it if and only if no description written no earlier than that lands on it |
| `BootMonFlush.FlushInOrder` | Platform/ARM/Drivers/BootMonFs/BootMonFsOpenClose.c:314-412 | in particular when each non-empty region ends before the flushed size or at or past every earlier end: then each byte is the last one written, and uncovered old bytes are kept |
| `BootMonFlush.RewritingTheHeadClobbers` | Platform/ARM/Drivers/BootMonFs/BootMonFsOpenClose.c:314 | a later, shorter region re-enters the append branch and puts its description inside the data: a concrete file |
| `BootMonFlush.UnclobberedIsFaithful` | Platform/ARM/Drivers/BootMonFs/BootMonFsOpenClose.c:316-424 | the sufficient half for one buffer and one medium |
| `BootMonMount.FlushSparesOthers` | Platform/ARM/Drivers/BootMonFs/BootMonFsOpenClose.c:249-431 | whatever its outcome, a flush with room leaves every block of every other file on disk as it was |
| `BootMonMount.FlushStaysInside` | Platform/ARM/Drivers/BootMonFs/BootMonFsOpenClose.c:249-431 | whatever its outcome, a flush changes no byte outside the blocks its buffer reaches from the file's start, but for the file's own old description |
| `BootMonMount.FlushHolds` | Platform/ARM/Drivers/BootMonFs/BootMonFsOpenClose.c:398-424 | after a successful flush the description on record is the one in flash |
| `BootMonMount.FlushKeepsFlash` | Platform/ARM/Drivers/BootMonFs/BootMonFsOpenClose.c:249-431 | and flash and all file records agree again |
| `BootMonMount.ScanIsSound` | Platform/ARM/Drivers/BootMonFs/BootMonFsImages.c:156-185 | the scan lists recognised block tails only, each once, in ascending order |
| `BootMonMount.ScanIsComplete` | Platform/ARM/Drivers/BootMonFs/BootMonFsImages.c:156-185 | and misses none |
| `BootMonMount.RemountExactly` | Platform/ARM/Drivers/BootMonFs/BootMonFsImages.c:138-222 | with layout and flash in agreement, mounting rebuilds names, ranges, sizes and order if and only if no other block ends in a recognised description |
| `BootMonTails.LeftByStages` | Platform/ARM/Drivers/BootMonFs/BootMonFsOpenClose.c:316-413 | every byte of the extent outside the tail described last is zero where a description was erased, else the byte written last, else the old one |
| `BootMonTails.FlushedTail` | Platform/ARM/Drivers/BootMonFs/BootMonFsOpenClose.c:316-424 | so whether a block tail is recognised after the flush is told from buffer and flash before it |
| `BootMonTails.DescriptionLeft` | Platform/ARM/Drivers/BootMonFs/BootMonFsOpenClose.c:418-424 | a final description in another block leaves the one written before it in flash, recognised |
| `BootMonStale.FlushKeepsTailsExactly` | Platform/ARM/Drivers/BootMonFs/BootMonFsOpenClose.c:249-431 | a successful flush keeps the volume remountable if and only if, before it, the last appended end - or the old size - falls in the same block as Info.FileSize, and data, zeros and old contents make no other tail of the extent look like a description |
| `BootMonStale.DescriptionLeftBehind` | Platform/ARM/Drivers/BootMonFs/BootMonFsOpenClose.c:418-424 | whenever those blocks differ - a shrink, or a rewritten head of a longer file - the next mount cannot rebuild the list |
| `BootMonStale.HeadLastLosesRemount` | Platform/ARM/Drivers/BootMonFs/BootMonFsOpenClose.c:398-424 | 100 bytes at 900 and then 10 bytes at 0 in a new file: no byte is clobbered, and the next mount does not find the file as it is |
| `BootMonStale.HeadLastFlushes` | Platform/ARM/Drivers/BootMonFs/BootMonFsOpenClose.c:249-431 | that flush can happen, on a blank medium of 16 blocks |
| `BootMonBuffer.WriteRefines` | Platform/ARM/Drivers/BootMonFs/BootMonFsReadWrite.c:133-180 | queueing a write is writing to a plain byte file at the position |
| `BootMonBuffer.SeekRefines` | Platform/ARM/Drivers/BootMonFs/BootMonFsReadWrite.c:195-222 | seeking, with the all-ones position for the end of the file |
| `BootMonBuffer.ResizeRefines` | Platform/ARM/Drivers/BootMonFs/BootMonFsDir.c:347-428 | SetFileSize cuts or zero-extends the plain file and keeps its position |
| `BootMonBuffer.ResizeRefinesExactly` | Platform/ARM/Drivers/BootMonFs/BootMonFsDir.c:347-428 | it does so for every file if and only if the cut is below the 32-bit old size, or the file is below 4 GiB and its position not the all-ones one that a growth seeks back to |
| `BootMonBuffer.ResizeLosesHighBits` | Platform/ARM/Drivers/BootMonFs/BootMonFsDir.c:365 | above, the UINT32 old size makes a truncation append zeros instead |
| `BootMonBuffer.FlushRefines` | Platform/ARM/Drivers/BootMonFs/BootMonFsOpenClose.c:249-431 | a successful flush that clobbers nothing leaves flash alone to show the plain file |
| `BootMonBuffer.ReadRefines` | Platform/ARM/Drivers/BootMonFs/BootMonFsReadWrite.c:87-101 | a read from flash then gives the plain file's bytes from the position on |
| `BootMonBuffer.TrimKeepsOverlay` | Platform/ARM/Drivers/BootMonFs/BootMonFsDir.c:372-386 | cutting buffered regions to a smaller size changes no byte below it |
| `BootMonRetained.FlushMisses` | Platform/ARM/Drivers/BootMonFs/BootMonFsOpenClose.c:316-424 | no write of a flush touches old data that is not in the buffer, if no description is put on it |
| `BootMonRetained.FlushAlwaysRefines` | Platform/ARM/Drivers/BootMonFs/BootMonFsOpenClose.c:249-431 | whatever the outcome of a flush with room that puts no description on data - success, VOLUME_FULL, or a disk failing at any write - buffer over flash still shows the plain file |
| `BootMonSession.ActRefines` | Platform/ARM/Drivers/BootMonFs/BootMonFsReadWrite.c:41-222 | any one call on an open file does to buffer and flash what it does to the plain byte file |
| `BootMonSession.SessionRefines` | Platform/ARM/Drivers/BootMonFs/BootMonFsReadWrite.c:41-222 | over every sequence of writes, seeks, resizes, renames, flushes and reads on it, with a disk that may fail at any write, buffer over flash is the plain file that the same calls make |
| `BootMonSession.SessionReads` | Platform/ARM/Drivers/BootMonFs/BootMonFsReadWrite.c:43-109 | and every read whose flush and disk read work returns that file's bytes from its position on |
| `BootMonReads.ReadsRightExactly` | Platform/ARM/Drivers/BootMonFs/BootMonFsReadWrite.c:43-109 | without disk errors, reads of an open file are right for all contents and positions if and only if the flush they make finds a place and space for the whole buffer |
| `BootMonReads.UnplacedReadsBlockZero` | Platform/ARM/Drivers/BootMonFs/BootMonFsReadWrite.c:64-109 | a file that finds no place is read from block 0 of the media, with success |
| `BootMonReads.FullReadsWrongly` | Platform/ARM/Drivers/BootMonFs/BootMonFsReadWrite.c:64-109 | a placed file without space for its buffer has contents that are read wrongly, with success |
| `BootMonOperations.LookupFrom` | Platform/ARM/Drivers/BootMonFs/BootMonFsEntryPoint.c:81-114 | the walk finds a file that answers to the name, or there is none |
| `BootMonOperations.OpenFile` | Platform/ARM/Drivers/BootMonFs/BootMonFsOpenClose.c:523-702 | a refused open changes nothing and gives no handle; a file handle is that of an open file |
| `BootMonRuns.FlushOwnChange` | Platform/ARM/Drivers/BootMonFs/BootMonFsOpenClose.c:193-198 | a flush changes one entry of the list and permutes the rest |
| `BootMonRuns.MountAllocatesExactly` | Platform/ARM/Drivers/BootMonFs/BootMonFsImages.c:191-222 | a mount yields a proper layout if and only if the recognised tails describe disjoint files on disk |
| `BootMonRuns.StepStaysSound` | Platform/ARM/Drivers/BootMonFs/BootMonFsOpenClose.c:249-795 | every call keeps the layout, given room at flushes, also when the disk fails at any write |
| `BootMonRuns.RunsStaySound` | Platform/ARM/Drivers/BootMonFs/BootMonFsOpenClose.c:76-211 | in every state of every guarded run files on disk are listed in increasing, disjoint block ranges inside the media, data below description |
| `BootMonRepair.RepairedPlaceHasRoom` | Platform/ARM/Drivers/BootMonFs/BootMonFsOpenClose.c:191-207 | marked repair: with tail relink, next-on-disk neighbour and whole blocks, every answer of the search has room |
| `BootMonRepair.FullBeforeWriting` | Platform/ARM/Drivers/BootMonFs/BootMonFsOpenClose.c:352-411 | marked repair: a repaired flush that reports VOLUME_FULL has written nothing |
| `BootMonRepair.RepairedFlushKeepsLayout` | Platform/ARM/Drivers/BootMonFs/BootMonFsOpenClose.c:249-431 | marked repair: every outcome of a repaired flush keeps the layout, with no condition on the call |
| `BootMonRepair.RepairedRunsStaySound` | Platform/ARM/Drivers/BootMonFs/BootMonFsOpenClose.c:76-211 | marked repair: so does every run, with a condition on mounts only |
| `BootMonNames.LookupFindsTheFile` | Platform/ARM/Drivers/BootMonFs/BootMonFsEntryPoint.c:81-114 | with distinct effective names, lookup finds a file if and only if it has the name |
| `BootMonNames.OpensExactly` | Platform/ARM/Drivers/BootMonFs/BootMonFsOpenClose.c:523-702 | an open gives a file if and only if the path is plain and either a closed file has that name, or none has and it may be created; a file is never opened twice |
| `BootMonNames.OpensWithStatus` | Platform/ARM/Drivers/BootMonFs/BootMonFsOpenClose.c:523-702 | each status of an open, if and only if the path and the list are as the source tests them; a handle with success alone |
| `BootMonNames.OpenedHandle` | Platform/ARM/Drivers/BootMonFs/BootMonFsOpenClose.c:666-702 | the file opened is the one with the name, at position 0 and with its length; a created one is empty and first in the list |
| `BootMonNames.HandleAcceptsWrites` | Platform/ARM/Drivers/BootMonFs/BootMonFsOpenClose.c:699 | a handle accepts writes if and only if it was not opened with Read alone |
| `BootMonNames.RenamesExactly` | Platform/ARM/Drivers/BootMonFs/BootMonFsDir.c:299-331 | a rename is refused if and only if some listed file answers to the new name without its separator; a refused one changes nothing |
| `BootMonNames.RefusedRenameResizesExactly` | Platform/ARM/Drivers/BootMonFs/BootMonFsDir.c:454-529 | a refused change has an effect if and only if the file is writable, size and name were to change and the name is taken: the size is then the new one |
| `BootMonNames.FlushedNameOnRecord` | Platform/ARM/Drivers/BootMonFs/BootMonFsOpenClose.c:418-420 | a successful flush puts the in-memory name on record |
| `BootMonNames.StepKeepsNames` | Platform/ARM/Drivers/BootMonFs/BootMonFsOpenClose.c:463-466 | one call keeps effective names distinct if a close of a writable file flushes successfully |
| `BootMonNames.RunsKeepNamesDistinct` | Platform/ARM/Drivers/BootMonFs/BootMonFsEntryPoint.c:81-114 | and so does every run of opens, creations, renames, closes and deletions |
| `BootMonNames.FailedCloseStrands` | Platform/ARM/Drivers/BootMonFs/BootMonFsOpenClose.c:461-466 | a close whose flush finds no space leaves an entry with the empty name that no open call reaches |
| `BootMonDurability.StepSpares` | Platform/ARM/Drivers/BootMonFs/BootMonFsOpenClose.c:249-795 | a guarded call on another file, whatever the disk does, leaves a file on disk listed and its blocks untouched |
| `BootMonDurability.RunSpares` | Platform/ARM/Drivers/BootMonFs/BootMonFsOpenClose.c:249-795 | the same over whole runs |
| `BootMonDurability.CloseKeeps` | Platform/ARM/Drivers/BootMonFs/BootMonFsOpenClose.c:446-469 | a close whose flush succeeds keeps the plain file's bytes in flash under its name |
| `BootMonDurability.OpenShows` | Platform/ARM/Drivers/BootMonFs/BootMonFsOpenClose.c:666-701 | opening that name gives a handle at position 0 with the size and bytes of the file |
| `BootMonDurability.IdleFlush` | Platform/ARM/Drivers/BootMonFs/BootMonFsReadWrite.c:69 | the flush inside a read of an unbuffered file changes nothing |
| `BootMonDurability.CleanRead` | Platform/ARM/Drivers/BootMonFs/BootMonFsReadWrite.c:43-109 | a read returns the bytes from the position on, cut at the end; past the end it is a device error |
| `BootMonDurability.WrittenIsReadBack` | Platform/ARM/Drivers/BootMonFs/BootMonFsReadWrite.c:43-180 | close, any guarded calls on other files, open by name, read: a successful read returns the bytes that were written |
| `BootMonDurability.PendingIsCountedTwice` | Platform/ARM/Drivers/BootMonFs/BootMonFsDir.c:55-65 | the length with a region pending beyond the size adds the region's end to the size: right if and only if the size is zero |
| `BootMonRemounts.BlankVolume` | Platform/ARM/Drivers/BootMonFs/BootMonFsImages.c:191-222 | a medium of zeros mounts to the empty list and meets every starting condition of the theorems about runs |
| `BootMonRemounts.RunsStaySettled` | Platform/ARM/Drivers/BootMonFs/BootMonFsOpenClose.c:249-795 | while the disk works and flushes find space, flash agrees with the records in every state of every run |
| `BootMonRemounts.StepStaysRemountable` | Platform/ARM/Drivers/BootMonFs/BootMonFsOpenClose.c:249-795 | a call keeps agreement and clean tails if its flush, should it make one, meets that condition beforehand |
| `BootMonRemounts.DeletedIsGone` | Platform/ARM/Drivers/BootMonFs/BootMonFsOpenClose.c:741-795 | a successful deletion: the name is not found, the other files keep their records and order, no description is recognised at the last block, all other tails are as before, and a scan does not list the file |
| `BootMonRemounts.RunsCanRemount` | Platform/ARM/Drivers/BootMonFs/BootMonFsImages.c:191-222 | so in every state of every such run a fresh mount rebuilds exactly the files on disk |
| `BootMonRemounts.KeptThroughMount` | Platform/ARM/Drivers/BootMonFs/BootMonFsImages.c:191-222 | a closed file that keeps its bytes keeps them, and its name, through a mount |
| `BootMonRemounts.OthersFoundAfterFlush` | Platform/ARM/Drivers/BootMonFs/BootMonFsOpenClose.c:249-431 | after a flush broken off at any write, a mount finds every other file on disk with its record, its blocks untouched |
| `BootMonRemounts.KeptIsFoundAtAnyTime` | Platform/ARM/Drivers/BootMonFs/BootMonFsImages.c:156-222 | over any guarded run on other files, with a disk that may fail at any write, a mount in any state finds a closed file with its name and bytes |
| `BootMonRemounts.WrittenSurvivesMount` | Platform/ARM/Drivers/BootMonFs/BootMonFsReadWrite.c:43-180 | close, any careful calls on other files, a fresh mount, open by name, read: a successful read returns the bytes that were written |
| `BootMonRing.InsertHeadList` | Platform/ARM/Drivers/BootMonFs/BootMonFsOpenClose.c:680 | on the linked ring: a new file becomes the first entry, both links of every neighbour pair stay consistent |
| `BootMonRing.InsertTailList` | Platform/ARM/Drivers/BootMonFs/BootMonFsImages.c:216 | a mounted file becomes the last entry |
| `BootMonRing.RemoveEntryList` | Platform/ARM/Drivers/BootMonFs/BootMonFsOpenClose.c:790 | removal closes the ring over the entry and returns its successor |
| `BootMonRing.RelinkInFront` | Platform/ARM/Drivers/BootMonFs/BootMonFsOpenClose.c:193-198 | the four pointer assignments after the removal turn the ring into the model's relinked list |
| `BootMonRing.NodeAtPosition` | Platform/ARM/Drivers/BootMonFs/BootMonFsEntryPoint.c:116-140 | walking forward from the root visits the entries in order and ends at the root |
| `BootMonDriver.Volume.BootMonFsFindSpaceForNewFile` | Platform/ARM/Drivers/BootMonFs/BootMonFsOpenClose.c:154-211 | the list walk, with its relink, is the modelled placement |
| `BootMonDriver.Volume.InvalidateImageDescription` | Platform/ARM/Drivers/BootMonFs/BootMonFsOpenClose.c:23-55 | zeros over the description, and nothing else; an error if and only if the disk failed |
| `BootMonDriver.Volume.WriteFileDescription` | Platform/ARM/Drivers/BootMonFs/BootMonFsOpenClose.c:76-139 | updates the record in place and writes it to the tail of its last block, and nothing else; an error if and only if the disk failed |
| `BootMonDriver.Volume.FlushRegion` | Platform/ARM/Drivers/BootMonFs/BootMonFsOpenClose.c:318-412 | one region: edit in place, or erase, write, describe; or VOLUME_FULL; a device error if and only if the disk failed |
| `BootMonDriver.Volume.BootMonFsFlushFile` | Platform/ARM/Drivers/BootMonFs/BootMonFsOpenClose.c:249-431 | every path of the flush over a failing disk is an outcome of the modelled step; a device error if and only if the disk failed, and without one all planned writes are in flash |
| `BootMonDriver.Volume.BootMonFsReadFile` | Platform/ARM/Drivers/BootMonFs/BootMonFsReadWrite.c:43-109 | flush with its status ignored, then the read; without a disk failure all planned writes of the flush are in flash |
| `BootMonDriver.Volume.BootMonFsWriteFile` | Platform/ARM/Drivers/BootMonFs/BootMonFsReadWrite.c:133-180 | queues the region, moves the position, grows the size |
| `BootMonDriver.Volume.BootMonFsSetPosition` | Platform/ARM/Drivers/BootMonFs/BootMonFsReadWrite.c:195-222 | sets the position |
| `BootMonDriver.Volume.TrimBuffer` | Platform/ARM/Drivers/BootMonFs/BootMonFsDir.c:372-387 | the loop over the buffered regions cuts them to the new size |
| `BootMonDriver.Volume.SetFileSize` | Platform/ARM/Drivers/BootMonFs/BootMonFsDir.c:347-428 | the seek, write and seek-back of an extension, the trim of a truncation |
| `BootMonDriver.Volume.BootMonGetFileFromAsciiFileName` | Platform/ARM/Drivers/BootMonFs/BootMonFsEntryPoint.c:81-114 | the list walk is the modelled lookup |
| `BootMonDriver.Volume.SetFileName` | Platform/ARM/Drivers/BootMonFs/BootMonFsDir.c:299-331 | strips one separator, refuses a name in use |
| `BootMonDriver.Volume.SetFileInfo` | Platform/ARM/Drivers/BootMonFs/BootMonFsDir.c:454-529 | size first, then name; a refused name leaves the new size in place |
| `BootMonDriver.Volume.BootMonFsGetImageLength` | Platform/ARM/Drivers/BootMonFs/BootMonFsDir.c:38-68 | UINT32 sum of the four region sizes, with the over-count of pending regions |
| `BootMonDriver.Volume.BootMonFsOpenFile` | Platform/ARM/Drivers/BootMonFs/BootMonFsOpenClose.c:498-715 | the first open call mounts the volume, wholly unless the disk failed; then path tests, lookup, creation at the list head |
| `BootMonDriver.Volume.BootMonFsCloseFile` | Platform/ARM/Drivers/BootMonFs/BootMonFsOpenClose.c:446-469 | flush with its status ignored, in-memory information dropped; without a disk failure all planned writes are in flash |
| `BootMonDriver.Volume.BootMonFsDelete` | Platform/ARM/Drivers/BootMonFs/BootMonFsOpenClose.c:741-795 | buffer dropped, description zeroed, entry unlinked; or WARN_DELETE_FAILURE with the entry kept, if and only if the disk failed |
| `BootMonDriver.Volume.BootMonFsDiscoverNextImage` | Platform/ARM/Drivers/BootMonFs/BootMonFsImages.c:138-189 | the next recognised tail from a block on |
| `BootMonDriver.Volume.BootMonFsInitialize` | Platform/ARM/Drivers/BootMonFs/BootMonFsImages.c:191-222 | the mount loop: a prefix of the scan, all of it unless the disk failed, always reported as success |
| `BootMonDriver.RegionsExtend` | Platform/ARM/Drivers/BootMonFs/BootMonFsOpenClose.c:316-413 | a flush of more regions starts with the writes of fewer |
| `SdMmcCommands.WithAccess` | Platform/Microsoft/Drivers/SdMmcDxe/Protocol.c:1471-1472 | sets bits 2:0 of PARTITION_CONFIG and changes no other |
| `SdMmcCommands.ArgumentFields` | Platform/Microsoft/Drivers/SdMmcDxe/Protocol.c:1019-1042 | the fields of the arguments: address in the upper half, access type 3 with index and value, block count with the reliable-write bit |
| `SdMmcScripts.CommandsAppend` | Platform/Microsoft/Drivers/SdMmcDxe/Protocol.c:436-437 | the accepted commands of consecutive stretches of the history, polls left out, are appended |
| `SdMmcScripts.NewCommandsCompose` | Platform/Microsoft/Drivers/SdMmcDxe/Protocol.c:436-437 | and compose over three points of the history |
| `SdMmcScripts.RpmbNeverStops` | Platform/Microsoft/Drivers/SdMmcDxe/RpmbIo.c:77-163 | no RPMB request has STOP_TRANSMISSION in its sequence |
| `SdMmcScripts.IdentificationLegal` | Platform/Microsoft/Drivers/SdMmcDxe/Protocol.c:139-273 | both identification scripts are legal in the card's state machine and end in the transfer state |
| `SdMmcScripts.RpmbLegal` | Platform/Microsoft/Drivers/SdMmcDxe/RpmbIo.c:77-163 | so are the RPMB requests and partition switches: no transfer is left going on |
| `SdMmcTally.FailureMaskedExactly` | Platform/Microsoft/Drivers/SdMmcDxe/SdMmc.c:644-688 | a failure up to the Exit label is reported as a success if and only if RpmbIo or the device path was published and the last withdrawal works; the device path is then not published |
| `SdMmcTally.PublishingMaskedExactly` | Platform/Microsoft/Drivers/SdMmcDxe/SdMmc.c:574-688 | whatever resets nested in the initialisation have published, a failing installation is reported as a success if and only if, BlockIo and the device path installed, RpmbIo fails and the device path can be withdrawn, or else the last withdrawal of what a nested reset published works |
| `SdMmcTally.MaskedReset` | Platform/Microsoft/Drivers/SdMmcDxe/SdMmc.c:607-672 | such a reset with nothing published before: RpmbIo cannot be installed, success reported with only BlockIo left |
| `SdMmcTally.MaskedNestedReset` | Platform/Microsoft/Drivers/SdMmcDxe/SdMmc.c:540-688 | and one for a card of any kind: a nested reset has published BlockIo and the device path, so BlockIo is refused, the device path withdrawn, and success reported |
| `SdMmcEngine.AtMostOneRpmb` | Platform/Microsoft/Drivers/SdMmcDxe/SdMmc.c:607-642 | at most one instance of the system has RpmbIo installed |
| `SdMmcEngine.CheckCardsCallback` | Platform/Microsoft/Drivers/SdMmcDxe/SdMmc.c:693-742 | a slot is reset if and only if the answer to whether there is a card differs from its media record, also when it is not initialised; nothing else is done with the others; every Installed flag stays true to the database and at most one RpmbIo is published |
| `SdMmcHost.ProtocolDatabase.Install` | Platform/Microsoft/Drivers/SdMmcDxe/SdMmc.c:516-520 | install fails if already present; a failure changes nothing and is else a refusal |
| `SdMmcHost.ProtocolDatabase.IsRpmbInstalledOnTheSystem` | Platform/Microsoft/Drivers/SdMmcDxe/SdMmc.c:744-762 | true if and only if some handle carries RpmbIo |
| `SdMmcEngine.SdhcInstance.SendCommandHelper` | Platform/Microsoft/Drivers/SdMmcDxe/Protocol.c:372-440 | last and second-last successful commands are the last two of the log; success if and only if the host controller met no error and the status has no error bit |
| `SdMmcEngine.SdhcInstance.SendCommand` | Platform/Microsoft/Drivers/SdMmcDxe/Protocol.c:442-474 | terminates against any card; the recovery count is restored; a success logs the command, then polls exactly after a SWITCH, and changes nothing else; a failure has a reason: a fault, an unanswered probe, a card that stays busy |
| `SdMmcEngine.SdhcInstance.WaitForTranStateAndReadyForData` | Platform/Microsoft/Drivers/SdMmcDxe/Protocol.c:614-649 | polls to the first answer that is ready in the transfer state, within 200 polls; without a fault it fails only after 201 |
| `SdMmcEngine.SdhcInstance.FinishTransfer` | Platform/Microsoft/Drivers/SdMmcDxe/Protocol.c:527-545 | STOP_TRANSMISSION is attempted exactly after a multi-block command not preceded by SET_BLOCK_COUNT |
| `SdMmcEngine.SdhcInstance.SendDataCommand` | Platform/Microsoft/Drivers/SdMmcDxe/Protocol.c:476-554 | once data has moved, STOP_TRANSMISSION is attempted if and only if the preceding successful command was not SET_BLOCK_COUNT; success fixes the log; every failure has a reason and has been recovered from |
| `SdMmcEngine.SdhcInstance.RecoverFromErrors` | Platform/Microsoft/Drivers/SdMmcDxe/Protocol.c:275-370 | recursion through SoftReset terminates: (remaining budget, rank) decreases, and the count is restored; with the budget used up PROTOCOL_ERROR with nothing reset or sent, else the lines are reset |
| `SdMmcEngine.SdhcInstance.ResetLinesOrCard` | Platform/Microsoft/Drivers/SdMmcDxe/Protocol.c:299-345 | the card is reset if and only if the last line reset failed (that of the data lines for a command that moves data); a success for a multi-block command means the card was seen in the transfer state or accepted STOP_TRANSMISSION, sent exactly when it was not |
| `SdMmcEngine.SdhcInstance.QueryCardType` | Platform/Microsoft/Drivers/SdMmcDxe/Protocol.c:564-612 | without a soft reset the card is what the probes it answered say, all combinations; NO_MEDIA for none; it fails else only for a reason |
| `SdMmcEngine.SdhcInstance.ProbeSd` | Platform/Microsoft/Drivers/SdMmcDxe/Protocol.c:1110-1140 | answered if and only if pattern and voltage are echoed |
| `SdMmcEngine.SdhcInstance.PowerUpMmc` | Platform/Microsoft/Drivers/SdMmcDxe/Protocol.c:1240-1291 | answered if and only if the card reports power-up within 200 polls, with all high voltages |
| `SdMmcEngine.SdhcInstance.Exchange` | Platform/Microsoft/Drivers/SdMmcDxe/Protocol.c:442-474 | a command outside error polling: success changes neither the card record nor the published protocols, and the history grows by it alone |
| `SdMmcEngine.SdhcInstance.PowerUpSd` | Platform/Microsoft/Drivers/SdMmcDxe/Protocol.c:1142-1197 | success means the card reported power-up within 200 polls, accepted nothing but the first query and those polls, and gave its capacity class if it has the extended register |
| `SdMmcEngine.SdhcInstance.AssignRelativeAddr` | Platform/Microsoft/Drivers/SdMmcDxe/Protocol.c:807-833 | an MMC card gets the driver's address, an SD card gives its own |
| `SdMmcEngine.SdhcInstance.ReadCardRegisters` | Platform/Microsoft/Drivers/SdMmcDxe/Protocol.c:651-756 | success sets the block size to 512; the card accepted SEND_CID and SEND_CSD for its address |
| `SdMmcEngine.SdhcInstance.IdentifyCard` | Platform/Microsoft/Drivers/SdMmcDxe/Protocol.c:152-174 | success accepted ALL_SEND_CID, SEND_RELATIVE_ADDR, SEND_CID, SEND_CSD, in this order, and nothing else |
| `SdMmcEngine.SdhcInstance.ReadExtCsd` | Platform/Microsoft/Drivers/SdMmcDxe/Protocol.c:1427-1455 | success adds one SEND_EXT_CSD to the history and refreshes the register |
| `SdMmcEngine.SdhcInstance.SwitchSpeedModeMmc` | Platform/Microsoft/Drivers/SdMmcDxe/Protocol.c:1390-1425 | success means the re-read register reports high-speed timing, by one SWITCH of HS_TIMING and one SEND_EXT_CSD |
| `SdMmcEngine.SdhcInstance.SwitchPowerClassMmc` | Platform/Microsoft/Drivers/SdMmcDxe/Protocol.c:1332-1360 | success means the re-read register holds the power class asked for |
| `SdMmcEngine.SdhcInstance.SwitchBusWidthMmc` | Platform/Microsoft/Drivers/SdMmcDxe/Protocol.c:1293-1388 | success accepted the bus width script; the card's power class is the one switched to, or none was switched and it is enough for the wider bus |
| `SdMmcEngine.SdhcInstance.SwitchPartitionMmc` | Platform/Microsoft/Drivers/SdMmcDxe/Protocol.c:1457-1511 | success means CurrentMmcPartition and the re-read register agree, by a SWITCH that changes bits 2:0 only; a failure has a reason and leaves the partition on record |
| `SdMmcEngine.SdhcInstance.InitializeSdDevice` | Platform/Microsoft/Drivers/SdMmcDxe/Protocol.c:139-201 | success leaves an SD card with 512-byte blocks that accepted exactly the power-up polls and the identification script, in this order, and the bus at 4 bits; it fails only for a fault or a card that stays busy |
| `SdMmcEngine.SdhcInstance.InitializeMmcDevice` | Platform/Microsoft/Drivers/SdMmcDxe/Protocol.c:203-273 | success leaves an MMC card of version 4 or later in high-speed mode with 512-byte blocks that accepted exactly the identification script, power class switch included when there was one; it fails else for an old version or an unconfirmed switch alone |
| `SdMmcEngine.SdhcInstance.InitializeDevice` | Platform/Microsoft/Drivers/SdMmcDxe/Protocol.c:36-137 | success leaves an initialised SD or MMC card, also when resets were nested inside; every failure has a fault, a busy card or an unsupported one as its reason |
| `SdMmcEngine.SdhcInstance.UninstallAllProtocols` | Platform/Microsoft/Drivers/SdMmcDxe/SdMmc.c:764-833 | success if and only if nothing of the instance is published any more, and if and only if nothing was refused |
| `SdMmcEngine.SdhcInstance.InstallRpmbIo` | Platform/Microsoft/Drivers/SdMmcDxe/SdMmc.c:607-642 | RpmbIo only if no other handle has it, with the current partition on record |
| `SdMmcEngine.SdhcInstance.PublishProtocols` | Platform/Microsoft/Drivers/SdMmcDxe/SdMmc.c:574-642 | flags and status are those of installing in the source's order up to the first failure; RpmbIo is somewhere on the system for an MMC card |
| `SdMmcEngine.SdhcInstance.ResetAndInitialize` | Platform/Microsoft/Drivers/SdMmcDxe/SdMmc.c:480-644 | asks once for card and write protection and puts the answers on record; success publishes BlockIo, and with a card present an initialised device |
| `SdMmcEngine.SdhcInstance.SoftReset` | Platform/Microsoft/Drivers/SdMmcDxe/SdMmc.c:468-691 | with a card present, a success with the device path published means an initialised device; with no refusal and no fault it is one, or the card is not supported and nothing of it is published |
| `SdMmcEngine.SdhcInstance.SoftResetReporting` | Platform/Microsoft/Drivers/SdMmcDxe/SdMmc.c:468-691 | the flags stay exact under re-entry; with a card present, a reported success is one if and only if the device path is published; a failure is replaced only after a refusal or a nested reset |
| `SdMmcEngine.SdhcInstance.CountedTransfer` | Platform/Microsoft/Drivers/SdMmcDxe/RpmbIo.c:85-105 | a transfer with its block count set adds exactly SET_BLOCK_COUNT and the command |
| `SdMmcEngine.SdhcInstance.RpmbRead` | Platform/Microsoft/Drivers/SdMmcDxe/RpmbIo.c:76-130 | success means exactly the four commands of a counted request and a counted response |
| `SdMmcEngine.SdhcInstance.RpmbWrite` | Platform/Microsoft/Drivers/SdMmcDxe/RpmbIo.c:132-163 | success means a reliable counted write |
| `SdMmcEngine.SdhcInstance.RpmbTransact` | Platform/Microsoft/Drivers/SdMmcDxe/RpmbIo.c:354-392 | success means exactly the request's sequence |
| `SdMmcEngine.SdhcInstance.RpmbRequest` | Platform/Microsoft/Drivers/SdMmcDxe/RpmbIo.c:314-411 | a switch to the RPMB partition is followed by a switch back, tried whatever happened; a successful one restores the partition even across a card reset; success means the card accepted exactly switch, request, switch back, with no recovery |
| `SdMmcBlockIo.SpanAcceptedExactly` | Platform/Microsoft/Drivers/SdMmcDxe/BlockIo.c:200-210 | the range check accepts exactly spans inside the media and those that run past block 2^64 |
| `SdMmcBlockIo.SpanWraps` | Platform/Microsoft/Drivers/SdMmcDxe/BlockIo.c:201 | the latter with concrete numbers |
| `SdMmcBlockIo.RefusalExactly` | Platform/Microsoft/Drivers/SdMmcDxe/BlockIo.c:165-221 | each refusal in terms of media and request: a write to read-only media is refused as such and no read is; attempted if and only if every test passes |
| `SdMmcBlockIo.DataCommandFits` | Platform/Microsoft/Drivers/SdMmcDxe/BlockIo.c:223-235 | the command reads or writes as the request says, several blocks unless it is for one |
| `SdMmcBlockIo.TileOf` | Platform/Microsoft/Drivers/SdMmcDxe/BlockIo.c:244-274 | every byte of the transfer is in exactly one chunk |
| `SdMmcBlockIo.TilesCopy` | Platform/Microsoft/Drivers/SdMmcDxe/BlockIo.c:244-274 | chunks that all arrived make up the single copy |
| `SdMmcBlockIo.AllOrErrorExactly` | Platform/Microsoft/Drivers/SdMmcDxe/BlockIo.c:237-274 | a reported success means all the blocks in their places, whatever the card does, if and only if the request fits one chunk |
| `SdMmcBlockIo.LongCanFail` | Platform/Microsoft/Drivers/SdMmcDxe/BlockIo.c:251-273 | for any longer request, a course that loses the first chunk and reports success |
| `SdMmcBlockIo.ZeroBlockSizeMisplaces` | Platform/Microsoft/Drivers/SdMmcDxe/BlockIo.c:272 | after a recovery that leaves block size 0, and division by zero yielding 0, the second chunk goes over the first: right only by accident, exactly stated |
| `SdMmcBlockIo.ShortIsOneChunk` | Platform/Microsoft/Drivers/SdMmcDxe/BlockIo.c:245-249 | a request within the limit goes in one chunk, whose status is reported |
| `SdMmcBlockIo.CutSize` | Platform/Microsoft/Drivers/SdMmcDxe/BlockIo.c:240 | what the 32-bit byte counter keeps of a larger size |
| `SdMmcBlockIo.BlockDevice.TryChunk` | Platform/Microsoft/Drivers/SdMmcDxe/BlockIo.c:251-269 | up to three attempts; a failure scrambles the chunk's own range only, and its recovery may reset the media, block size included |
| `SdMmcBlockIo.BlockDevice.MoveChunks` | Platform/Microsoft/Drivers/SdMmcDxe/BlockIo.c:237-274 | chunks tile the request in order, all but the last of full length; while the block size is 512 after each, every arrived one is in place and nothing else changes; the status is the last chunk's |
| `SdMmcBlockIo.BlockDevice.MoveChunksOrStop` | Platform/Microsoft/Drivers/SdMmcDxe/BlockIo.c:237-274 | marked repair: with the block size read once and the loop left on a chunk failure, success is the whole copy for every request |
| `SdMmcBlockIo.BlockDevice.IoBlocks` | Platform/Microsoft/Drivers/SdMmcDxe/BlockIo.c:141-287 | the refusals in their order, with nothing sent; else the chunks, the first at the block number modulo 2^32; within the 64-bit block numbers success is the whole copy for a request of one chunk, and for any other if all chunks arrived with the block size at 512; fewer than three failed tries mean that all arrived |
| `FdtDump.IsPrintableString` | Platform/ARM/Drivers/FdtPlatformDxe/ShellDumpFdt.c:21-52 | true if and only if the only NUL is the last byte |
| `FdtDump.PrintData` | Platform/ARM/Drivers/FdtPlatformDxe/ShellDumpFdt.c:54-82 | string, cells or bytes, by that test and the length |
| `FdtDump.RenderingIsFaithful` | Platform/ARM/Drivers/FdtPlatformDxe/ShellDumpFdt.c:54-82 | each rendering determines the data |
| `FdtDump.DumpFdt` | Platform/ARM/Drivers/FdtPlatformDxe/ShellDumpFdt.c:131-173 | the cursor loop prints the walk, for any blob |
| `FdtDump.WalkItem` | Platform/ARM/Drivers/FdtPlatformDxe/ShellDumpFdt.c:132-173 | over a flattened item the walk prints its pre-order and continues behind it at the same depth |
| `FdtDump.DumpInvertsFlatten` | Platform/ARM/Drivers/FdtPlatformDxe/ShellDumpFdt.c:84-174 | for any tree flattened by version 16 or later, NOPs allowed, the dump is exactly the pre-order and ends at FDT_END at depth 0 |
| `ElfLoad.CompileConserves` | Platform/ARM/Library/ArmShellCmdRunAxf/ElfLoader.c:311-329 | nodes are not empty and their lengths sum to the segments' memory sizes |
| `ElfLoad.SegmentInterpreted` | Platform/ARM/Library/ArmShellCmdRunAxf/ElfLoader.c:184-212 | a copy and a zero fill are the segment image, even over their own source |
| `ElfLoad.ListPreservesMeaning` | Platform/ARM/Library/ArmShellCmdRunAxf/ElfLoader.c:277-340 | carrying out the list is applying each PT_LOAD in order, when none is loaded over file bytes of a later one |
| `ElfLoad.RestUntouched` | Platform/ARM/Library/ArmShellCmdRunAxf/ElfLoader.c:311-329 | all other bytes are untouched |
| `ElfLoad.LoadingExactly` | Platform/ARM/Library/ArmShellCmdRunAxf/ElfLoader.c:277-340 | for segments with disjoint memory this holds for all memory contents if and only if none is loaded over file bytes of a later one, other than onto themselves |
| `ElfLoad.LoadedWrongly` | Platform/ARM/Library/ArmShellCmdRunAxf/RunAxf.c:310-322 | memory contents for which it fails otherwise |
| `ElfLoad.ElfLoadSegment` | Platform/ARM/Library/ArmShellCmdRunAxf/ElfLoader.c:146-215 | refused if and only if it has more file than memory bytes, out of resources if and only if an allocation failed, else its nodes are appended |
| `ElfLoad.ElfLoadFile` | Platform/ARM/Library/ArmShellCmdRunAxf/ElfLoader.c:277-340 | succeeds if and only if every segment is good, allocations work and the 64-bit size sum is not zero |
| `ElfLoad.RunNode` | Platform/ARM/Library/ArmShellCmdRunAxf/RunAxf.c:315-320 | one entry |
| `ElfLoad.RunLoadList` | Platform/ARM/Library/ArmShellCmdRunAxf/RunAxf.c:311-322 | the loop carries the list out in place |
| `ElfLoad.LoadAndRun` | Platform/ARM/Library/ArmShellCmdRunAxf/RunAxf.c:280-322 | runs if and only if every segment is good, there is something to load and no allocation failed; then memory is what the list makes of it, and what the file means if later file bytes are spared; else nothing is copied |
| `SparseImage.WritesWithinClaim` | Platform/Comcast/Library/RdkBootManagerLib/DiskIo.c:317-357 | no write goes past the blocks the chunk headers claim |
| `SparseImage.NeverPastChecked` | Platform/Comcast/Library/RdkBootManagerLib/DiskIo.c:221-240 | chunk sizes that sum to TotalBlocks keep every write inside the size checked against the partition |
| `SparseImage.SizeCheckExactly` | Platform/Comcast/Library/RdkBootManagerLib/DiskIo.c:211-240 | the 32-bit size check decides rightly if and only if the size is below 4 GiB, fits anyway, or is too large even modulo 2^32 |
| `SparseImage.SizeCheckWraps` | Platform/Comcast/Library/RdkBootManagerLib/DiskIo.c:228 | an image of 4 GiB and one block passes for a partition of one block, and its only write is beyond it |
| `SparseImage.ExpandInvertsEncode` | Platform/Comcast/Library/RdkBootManagerLib/DiskIo.c:317-357 | the chunk loop gives back the writes of an encoded block sequence, and goes on behind it |
| `SparseImage.UnknownChunkEnds` | Platform/Comcast/Library/RdkBootManagerLib/DiskIo.c:351-356 | behind any block sequence, a chunk of another type ends the loop with an error |
| `SparseImage.EncodingExpands` | Platform/Comcast/Library/RdkBootManagerLib/DiskIo.c:212-357 | an encoding, with a header of any stated length, expands to exactly its writes, and below 4 GiB passes the size check if and only if it fits |
| `SparseImage.WritesMean` | Platform/Comcast/Library/RdkBootManagerLib/DiskIo.c:339-348 | raw payloads at their expanded offsets, don't-care ranges untouched |
| `SparseImage.WrittenEncoding` | Platform/Comcast/Library/RdkBootManagerLib/DiskIo.c:286-376 | writing the encoding of a block sequence reproduces it on the disk |
| `SparseImage.Crc32NotSkipped` | Platform/Comcast/Library/RdkBootManagerLib/DiskIo.c:349-350 | a CRC32 chunk's payload is read as the next chunk header |
| `SparseImage.WriteChunks` | Platform/Comcast/Library/RdkBootManagerLib/DiskIo.c:316-357 | the loop over a failing disk: a prefix of the expansion is on the disk |
| `SparseImage.PartitionWrite` | Platform/Comcast/Library/RdkBootManagerLib/DiskIo.c:286-376 | success only if the image was read to its end and every write is on the disk; a plain image is refused if and only if it is longer than the partition, and is on the disk unless the disk failed; nothing behind it changes |
| `RdkConfig.SpanEndsFirst` | Platform/Comcast/Library/RdkBootManagerLib/RdkFile.c:173-186 | a span ends at the first delimiter or NUL, and only there |
| `RdkConfig.FirstValueIsFirst` | Platform/Comcast/Library/RdkBootManagerLib/RdkFile.c:289-297 | lookup gives the first row with the name, if any |
| `RdkConfig.ScanInvertsPrint` | Platform/Comcast/Library/RdkBootManagerLib/RdkFile.c:211-228 | printed bindings are read back as they are, as many as the table holds |
| `RdkConfig.ParserInvertsPrinter` | Platform/Comcast/Library/RdkBootManagerLib/RdkFile.c:188-231 | up to six bindings: inside the buffer, whole file consumed, first binding of each name found |
| `RdkConfig.NoDelimiterRunsOut` | Platform/Comcast/Library/RdkBootManagerLib/RdkFile.c:182-185 | a file without a delimiter makes the scan leave its buffer |
| `RdkConfig.StaysInsideExactly` | Platform/Comcast/Library/RdkBootManagerLib/RdkFile.c:173-228 | whatever the file, the scan stays in its buffer if and only if at least three NULs follow the file |
| `RdkConfig.Variables.StrSpn` | Platform/Comcast/Library/RdkBootManagerLib/RdkFile.c:173-186 | the scan is the modelled span |
| `RdkConfig.Variables.TakeString` | Platform/Comcast/Library/RdkBootManagerLib/RdkFile.c:215-223 | one string is cut off in place and copied out |
| `RdkConfig.Variables.InitVarList` | Platform/Comcast/Library/RdkBootManagerLib/RdkFile.c:188-231 | the in-place scan fills the table, cuts with NULs at the modelled offsets, and stays inside exactly when the modelled scan does |
| `RdkConfig.Variables.GetVarValue` | Platform/Comcast/Library/RdkBootManagerLib/RdkFile.c:286-297 | the loop over the table is the modelled lookup |
| `ByteStore.LastCoverDecides` | Platform/ARM/Drivers/BootMonFs/BootMonFsOpenClose.c:316-413 | a byte of flash is the one the last write that covers it put there |
| `ByteStore.ApplyAppend` | Platform/ARM/Drivers/BootMonFs/BootMonFsOpenClose.c:316-413 | consecutive stretches of writes compose |
| `ByteStore.Disk.WriteDisk` | Platform/ARM/Drivers/BootMonFs/BootMonFsOpenClose.c:387-393 | a disk write is complete, or fails, counts as a failure, and changes nothing outside its range |
| `ByteStore.Disk.ReadDisk` | Platform/ARM/Drivers/BootMonFs/BootMonFsImages.c:161-170 | a disk read gives the bytes of its range, or fails and counts as a failure |

## Left out

- BootMonFs, build: the AArch64 description (footer version 2, offset 96); the ARM variant differs in these two constants.
- BootMonFs, geometry: blocks larger than a description and media of at most 4 GiB; `LowestAlignedLba` is 0, since reads add it and writes do not.
- BootMonFs, numbers: positions and sizes in memory are unbounded; the 32-bit truncations of descriptions, of `BlockEnd + 1`, of physical sizes and of the old size in SetFileSize are modelled, 64-bit overflow of a position is not.
- BootMonFs, names: bytes of up to 31 characters without NUL; UTF-16 conversion and PathCleanUpDirectories are foreign code.
- BootMonFs, attributes, timestamps, GetInfo, volume label, ComputeFreeSpace and the directory handle: no effect on data or layout, or declared rough by its own comment.
- BootMonFs, allocation failures of the library pools: the calls that could fail for memory alone are modelled as succeeding.
- BootMonFs, the ring and the list of records are proved separately: the driver class keeps its list as a sequence, and `BootMonRing` shows that the pointer operations do to a ring what the class does to the sequence.
- RunsStaySound: asks for room at each flush; `RoomForNewFile`, `RoomForOldFile` and `OwnChecksSuffice` say when there is, and `RepairedRunsStaySound` needs no such condition.
- ResizeRefines: asks for the condition that `ResizeRefinesExactly` shows to be exact.
- Refines: bytes of a gap never written have no defined value in the plain file, as the code leaves whatever is in flash there.
- SdMmc: registers, clock frequencies, stalls, CID/CSD printing, maximum-frequency tables, statistics and benchmarks; what the card's registers contain is arbitrary.
- SdMmc, assertions: the one on an unknown card function in the status test is not proved; the model takes the release behaviour, no error. Those on the card function after initialisation are proved.
- SendDataCommand: a multi-block command needs an earlier successful command, as the source asserts when it reads the second-last one.
- IoBlocks: a present medium with block size 0 makes the source divide by zero before any transfer, which has no behaviour to model; later divisions by zero give an arbitrary word. What is transferred by a span past block 2^64 is not described beyond its chunks and first block number; block numbers are passed to the card as they are, also where a standard-capacity card would expect bytes; the engine's statuses appear as one device error.
- RPMB entry points check their packet types and pass on to RpmbRequest; packet contents and authentication are the caller's.
- SdMmc driver start and stop, and the device path's text: UEFI plumbing.
- FdtDump: memory reservations are printed through foreign library calls; header fields are given, and addresses are offsets into a blob that is aligned to eight bytes.
- DumpInvertsFlatten: version 16 or later; for older versions the walk aligns data of eight bytes or more to eight, which the model follows, but no such layout is specified.
- ElfLoad: program headers are given as decoded fields, and addresses do not wrap; entry point, header checks and shutdown of boot services are not modelled.
- LoadAndRun: segments that fit memory; the source writes wherever the file says.
- SparseImage: FILL chunks end with the code's protocol error; progress output and partition lookup are left out.
- RdkConfig: the directory search, file reading, and the conversion to UTF-16.
- Hisilicon, BdsLib, network boot, key enrolment, overlays, I2C, ACPI and board tables: other drivers, foreign libraries or constant tables.
