# Sonata: storage, buses and boot, verified

This project models the parts of the Sonata system repository where software and simulated hardware talk to each
other, and proves what they promise together:

* the FAT32 reader over its eight-entry block cache (`BlockCache`, `FatVolume`, `FatRead`, `FatStale`, `FatSeek`,
  `FatRefusal`, `FatExamples`, `FatDirectory`, `FatFind`, `FatSearch`, `FatNames`, `DirExamples`, `FileSystem`), over
  the card driver (`BlockMedium`, `CardFiles`);
* the SD card driver against the simulated card, with CRC7 and CRC16 (`Crc`, `CrcRemainder`, `MicroSd`, `SdDriver`,
  `SdInit`), and the bit-to-byte link below all SPI devices (`SpiLink`);
* the I2C bus decoder (`I2cBus`, `I2cTransactions`);
* the USB device's packet buffers, its two control-pipe implementations and its word copy (`UsbBuffers`, `UsbRuns`,
  `UsbDevice`, `UsbExamples`, `UsbControl`, `UsbCopy`);
* the SPI flash with its driver and the ELF boot loader on top of them (`FlashDevice`, `FlashDriver`, `BootLoader`,
  `BootImage`);
* the display with its driver (`LcdDevice`, `LcdDriver`).

Each component has a layer of functions on values that says what one step does, and lemmas over whole runs of those
steps. Where the code updates fields, buffers or registers in place, a class with the same fields does so too, and each
of its methods is proved to act as the function does.

## Results

**FAT32 reader.** `object_read` copies out of a cache entry after `cluster_next` may have refilled it.
`ReadExactlyWhenHarmless` gives the exact condition under which the bytes are still the file's;
`RightForAllContentsIffNeverStale` turns it into a condition on cached tags and the chain that is necessary and
sufficient over all contents of the data blocks; `StaleReadExample` is a reachable failing case;
`SequentialReadReproducesFile` discharges the condition for one handle reading in order. The cache is a queue of the
last eight distinct misses (`CacheRefinesQueue`), and a refused block read breaks its agreement with the medium
exactly as `RefusedReadKeepsAgreementIff` says. Positions stay consistent under all seeks and reads, and under refused
reads until then (`ReadCutShort`); `file_clusters` breaks them exactly as `FileClustersBreaksPositionUnless` says.
Long names are assembled exactly from entries given by their bytes (`LongNameIsReturned`), and a short entry's fields
are given back for all values (`DecodeGivesBack`). For every directory content `dir_find` is the search in the
directory's bytes alone (`SearchIsInBytes`), and so gives the first object of a name, long or 8.3
(`FindsFirstOfThatName`), through any cache that agrees with the medium, under the same proviso on stale trips, which
is discharged for first traversals, for directories that end before their first cluster boundary, and for directories
that are cached whole. When a returned name has no NUL, when a comparison reads past the buffer, and what happens in a
full directory without an end marker are stated exactly (`DirNextHasNulIff`, `ReadsPastIff`, `SearchInFullDirectory`).
`FatExamples` and `DirExamples` have a failing input for each of these conditions. `CardFiles.ReadByName` puts the
layers together: a file opened by name and read through the driver's bytes, the cache and the chains is the part of
the card's image that its chain selects.

**SD card.** A block written and read back is the same block, nothing else changes, and every polling loop ends
(`WriteThenRead`). Initialisation ends and changes nothing stored, and both registers are read exactly (`Init`,
`ReadRegister`). The CRCs are the remainders modulo x^16 + x^12 + x^5 + 1 and x^7 + x^3 + 1 (`Crc16IsRemainder`,
`Crc7IsRemainder`). Every error burst of up to sixteen bits is rejected (`BurstIsRejected`); seventeen is too many, as
the polynomial's own bits show (`SeventeenBitsCanPass`).

**I2C.** Any session of correctly signalled transactions is decoded to exactly its byte-level calls, read bytes appear
on SDA, and bytes are acknowledged exactly for present addresses (`SessionIsDecoded`). A transaction's address and
direction are those of its first byte as a number, twice the address and one more for a read.

**USB.** Every buffer is in exactly one place over every proper run, with host and hardware steps falling anywhere,
also between the phases of a service call (`EveryBufferInOnePlace`). "Proper" is exact for each step and run
(`StepKeepsIff`, `InvThroughoutIffProper`), and what a caller can check is exact too (`PacketSendSafeIff`). The code
does not check it: `UsbExamples` has runs from initialisation that lose a buffer, one of them through the window
inside `usbdev_service`. The two control-pipe implementations are bisimilar (`ControlPipesAgree`), answer every
request by its numbers (`SetupIsAnswered`) and come up when a host enumerates them (`EnumerationSucceeds`).

**Flash and boot.** Driver and device refine a byte array (`EraseSector`, `WritePage`, `Read`), and `ReadElf` builds
the memory image of the ELF file over them, or stops for exactly the first fault. `BootFile` says so in the values of
the file's headers, encoded in the order of `elf.h`, and in the file's own bytes.

**Display.** A drawing operation puts pixel k of its data at (x0 + k mod w, y0 + k div w) under exchange and mirrors,
changes nothing else, and ends exactly with its last pixel, unless the window ends at 0xffff (`DrawImage`,
`NeverEnds`); what such a window shows is stated too (`WrappedIsShown`).

## Conventions

* Fixed-width integers are mathematical integers with bounds; wrap-around is written out where it can happen.
* A medium is a function from block numbers to a delivery: 512 bytes and whether the read succeeded. It is fixed during
  one call and may differ between calls.
* A byte on the SPI bus is one exchange: the device's `readByte`, then its `writeByte`, with chip-select changes between
  exchanges. `SpiLink` derives this from the edges. A device that does not drive the line is read as 0x00,
  which is what the bit layer shifts out; the driver's comment at sw/cheri/common/sdcard-utils.hh:293-294 expects 0xff.
* The comment at sw/cheri/common/filesys-utils.hh:666 says that `dir_next` always leaves a NUL in a full-size buffer. It
  does so exactly when the entry has no long name or some place of the buffer was last given a NUL (`DirNextHasNulIff`);
  twenty parts without the last mark leave none (`NoNulExample`).
* The flash model's `cmdLen` is taken to be zero initially; `reset` does not assign it. The I2C model starts from reset,
  because the constructor does not set its state.
* Capability narrowing in the boot loader is a parameter: a function that may refuse, may round the top up, and never
  widens.

## Model

| member | source | states |
|---|---|---|
| BlockCache.EnsureAgrees | sw/cheri/common/filesys-utils.hh:124-146 | a successful access returns an entry holding the medium's block and keeps every entry equal to the medium |
| BlockCache.UnusedIsHit | sw/cheri/common/filesys-utils.hh:124-132 | while an entry is unused, block 0xffffffff passes for cached and is not read |
| BlockCache.RefusedReadKeepsAgreementIff | sw/cheri/common/filesys-utils.hh:137-145 | a refused read keeps agreement with the medium if and only if the victim was unused or the stray bytes equal its block |
| BlockCache.AccessRefinesQueue | sw/cheri/common/filesys-utils.hh:124-146 | one successful access acts on the cached tags, oldest first, as one access to a bounded FIFO queue |
| BlockCache.CacheRefinesQueue | sw/cheri/common/filesys-utils.hh:124-146 | over every run of successful accesses: tags equal the FIFO of the last eight distinct misses, no tag twice, every entry equals the medium |
| BlockCache.EmptyIsOrderly | sw/cheri/common/filesys-utils.hh:478-482 | the cache that `fin` leaves starts such runs, with no block cached |
| FatVolume.NextFollowsChain | sw/cheri/common/filesys-utils.hh:153-167 | following a cluster gives the masked FAT entry of that cluster on the medium |
| FatVolume.LinkIffLinked | sw/cheri/common/filesys-utils.hh:162-165 | the link is the four bytes of the entry, low byte first, with the last one's upper nibble ignored |
| FatVolume.FatBlockOfOffset | sw/cheri/common/filesys-utils.hh:154-157 | the FAT block asked for is that of the entry's byte offset, four times the cluster number in 32 bits |
| FatVolume.EndsChainIff | sw/cheri/common/filesys-utils.hh:148-150 | those four bytes end a chain if and only if they are 0 or 1, or 0xf8 to 0xff, 0xff, 0xff and a last low nibble of 0xf |
| FatVolume.Read | sw/cheri/common/filesys-utils.hh:199-247 | for every medium a read ends, returns at most the bytes asked for, never passes the length, and moves by what it returned |
| FatRead.ReadExactlyWhenHarmless | sw/cheri/common/filesys-utils.hh:199-247 | a read returns min(len, length − offset) bytes and advances by that; they are the file's next bytes if and only if every stale trip is harmless |
| FatRead.ReadReturnsFileBytes | sw/cheri/common/filesys-utils.hh:199-247 | when no crossing refills the data block's own entry, the file's next bytes are returned |
| FatRead.AheadNeverStale | sw/cheri/common/filesys-utils.hh:124-146 | while nothing ahead is cached but the newest block, no trip is stale, and the read preserves this |
| FatRead.SequentialReadReproducesFile | sw/cheri/common/filesys-utils.hh:199-247 | from an empty cache, one handle reading in chunks of any sizes reproduces the file |
| FatRead.DataBlocksApart | sw/cheri/common/filesys-utils.hh:489-494 | different blocks of an acyclic file have different block numbers, none of them in the FAT |
| FatStale.RightForAllContentsIffNeverStale | sw/cheri/common/filesys-utils.hh:205-245 | for given tags, chain and position, of a file or a directory: the read is right for all data contents if and only if no trip is stale |
| FatExamples.StaleReadExample | sw/cheri/common/filesys-utils.hh:205-245 | a volume and eight successful accesses from an empty cache after which a read returns FAT bytes |
| FatExamples.RefusedReadExample | sw/cheri/common/filesys-utils.hh:137-145 | an agreeing cache and one refused block after which a read returns the refused block's byte |
| FatExamples.FileClustersExample | sw/cheri/common/filesys-utils.hh:801-827 | a two-cluster file on which `file_clusters` leaves an inconsistent position and the next read returns a byte of the wrong cluster |
| FatRefusal.ReadCutShort | sw/cheri/common/filesys-utils.hh:199-247 | over a medium that refuses blocks but never lies, a read returns the file's bytes as far as it got and leaves a consistent position; uncut it is as on the image |
| FatRefusal.SeekCutShort | sw/cheri/common/filesys-utils.hh:170-196 | over such a medium a seek leaves the position alone or moves to the offset consistently |
| FatSeek.SeekKeepsPosition | sw/cheri/common/filesys-utils.hh:170-196 | a seek succeeds if and only if the offset is within the length; the position is consistent after it and unchanged by a failure |
| FatSeek.SeeksAndReadsKeepPosition | sw/cheri/common/filesys-utils.hh:170-247 | over any sequence of seeks and reads: offset at most length, current cluster the chain's at the offset, boundary case included, cache in agreement |
| FatSeek.FileClustersListsChain | sw/cheri/common/filesys-utils.hh:801-827 | the list returned is the chain from the current cluster on, and nothing at an end-of-chain marker, for every handle |
| FatSeek.StandsAtOffset | sw/cheri/common/filesys-utils.hh:170-196 | a consistent position has the cluster of its offset, except at a file end on a cluster boundary |
| FatSeek.FileClustersBreaksPositionUnless | sw/cheri/common/filesys-utils.hh:821-824 | the stored position is consistent if and only if nothing was listed or the stored offset, with its wrap at 2^32, is the file's end |
| FatDirectory.Next | sw/cheri/common/filesys-utils.hh:533-656 | for every medium the traversal ends, takes 32 bytes per entry below the length, and keeps the name buffer's size |
| FatDirectory.Collect | sw/cheri/common/filesys-utils.hh:573-601 | for every entry and buffer size no character is stored past the buffer |
| FatDirectory.EntriesAreBounded | sw/cheri/common/filesys-utils.hh:533-656 | over a handle's life, whatever the media hold, at most (2^32 − 1) / 32 entries are taken |
| FatDirectory.LfnCharAt | sw/cheri/common/filesys-utils.hh:587-596 | the thirteen characters are at bytes 1 to 9, 0xe to 0x18 and 0x1c to 0x1e, low byte first |
| FatDirectory.EncodedIsPart | sw/cheri/common/filesys-utils.hh:573-601 | every name of 1 to 255 characters has standard entries, encoded byte by byte |
| FatDirectory.PartNumber | sw/cheri/common/filesys-utils.hh:573-583 | five bits of a part's first byte are its number, and the seventh marks the last part |
| FatDirectory.DecodeGivesBack | sw/cheri/common/filesys-utils.hh:551-651 | an encoded short entry's name, extension, attributes, flags, cluster below 2^28 and length below 2^32 are given back for all values, whatever the reserved nibble holds; a deleted entry's first character and 0x05 are restored |
| FatDirectory.DecodedNumbers | sw/cheri/common/filesys-utils.hh:615-650 | first cluster and length of every entry, byte by byte |
| FatDirectory.PaddedShortName | sw/cheri/common/filesys-utils.hh:867-893 | a space-padded 8.3 name becomes its characters in lower case, with a period before an extension that is not blank |
| FatDirectory.CollectAssembles | sw/cheri/common/filesys-utils.hh:573-601 | collecting part k extends an assembled name downwards |
| FatDirectory.NextAssembles | sw/cheri/common/filesys-utils.hh:541-653 | from part k on, the traversal returns the short entry with the assembled name, whatever is cached, while no trip is stale |
| FatDirectory.LongNameIsReturned | sw/cheri/common/filesys-utils.hh:533-656 | for every name of 1 to 255 characters, its standard entries, given by their 32 bytes, make `dir_next` return exactly that name, NUL-terminated, in a 256-character buffer, through any agreeing cache, while no trip is stale |
| FatDirectory.AheadIsSteady | sw/cheri/common/filesys-utils.hh:541-546 | no trip is stale in a first traversal, when nothing ahead is cached |
| FatDirectory.WithinClusterIsSteady | sw/cheri/common/filesys-utils.hh:226-227 | no trip is stale in any traversal, first or repeated, whose entries end before their cluster does, for every cache and medium |
| FatDirectory.ResidentIsSteady | sw/cheri/common/filesys-utils.hh:124-132 | no trip is stale in a repeated traversal of an object whose blocks are all cached |
| FatFind.HeldNameIsUnique | sw/cheri/common/filesys-utils.hh:699-709 | a buffer with an assembled name matches that name and no other |
| FatFind.GeneratedNameIsHeld | sw/cheri/common/filesys-utils.hh:871-893 | an 8.3 entry without a long name is found by its generated name and by no other |
| FatFind.FindsFirstOfThatName | sw/cheri/common/filesys-utils.hh:678-689 | in every directory of long-named objects, 8.3 objects and passed-over entries, through any agreeing cache, `dir_find` returns the first object of the name, or nothing if there is none, while no trip is stale |
| FatFind.FindsInOneCluster | sw/cheri/common/filesys-utils.hh:678-689 | without that proviso for every directory whose end marker lies before its first cluster boundary, at the first lookup and at later ones |
| FatSearch.SearchIsInBytes | sw/cheri/common/filesys-utils.hh:678-689 | for every directory content: while no trip is stale, `dir_find` through medium, cache and chain is the search in the directory's bytes alone, and brings no block of another object into the cache |
| FatSearch.MarkerEndsSearch | sw/cheri/common/filesys-utils.hh:653 | an end marker among the entries ends every search |
| FatSearch.SearchInFullDirectory | sw/cheri/common/filesys-utils.hh:226-235 | a directory that fills its last cluster without an end marker: the search is decided by its entries, or goes on in the block that the end-of-chain marker leads to when taken for a cluster, and finds nothing if that block is refused |
| FatNames.NextPasses | sw/cheri/common/filesys-utils.hh:541-653 | for all entries that one call of `dir_next` passes over and the live entry it returns: the name in the buffer is what their parts store, in order, or the generated name |
| FatNames.CollectedHasNulIff | sw/cheri/common/filesys-utils.hh:573-601 | some parts leave a NUL in every buffer if and only if a place was last given a NUL |
| FatNames.DirNextHasNulIff | sw/cheri/common/filesys-utils.hh:570-653 | with a full-size buffer the returned name holds a NUL, whatever the buffer held, if and only if the entry has no long name or the parts of this call store a NUL and do not overwrite it |
| FatNames.ReadsPastIff | sw/cheri/common/filesys-utils.hh:699-709 | the comparison reads past the buffer if and only if the length allows it and the name is at least as long and begins with the whole buffer |
| FatNames.ShorterNameStaysInside | sw/cheri/common/filesys-utils.hh:678-689 | no comparison of a search for a name shorter than the buffer reads past it, whatever the directory holds |
| DirExamples.NoNulExample | sw/cheri/common/filesys-utils.hh:570-653 | a directory of twenty unmarked parts and a short entry: through any agreeing cache and whatever the buffer held, the returned buffer holds no NUL, and comparing it with a name of 256 such characters reads past it |
| DirExamples.StaleDirectoryExample | sw/cheri/common/filesys-utils.hh:205-245 | a cache reached by eight block reads through which `dir_find` misses a live entry that has the name |
| DirExamples.PhantomExample | sw/cheri/common/filesys-utils.hh:226-235 | a full directory without an end marker in which `dir_find` finds an object that no byte of the directory names |
| FileSystem.FileSys.Fin | sw/cheri/common/filesys-utils.hh:478-482 | all cached blocks are forgotten |
| FileSystem.FileSys.BlockEnsure | sw/cheri/common/filesys-utils.hh:124-146 | the entries and next victim change as in `Ensure`, and −1 is returned for a refused read |
| FileSystem.FileSys.ClusterNextOf | sw/cheri/common/filesys-utils.hh:153-167 | result and cache are those of `ClusterNext` |
| FileSystem.FileSys.ObjectSeek | sw/cheri/common/filesys-utils.hh:170-196 | position, cache and result are those of `Seek` |
| FileSystem.FileSys.ObjectRead | sw/cheri/common/filesys-utils.hh:199-247 | cache, position and bytes are those of `Read`, the rest of the buffer is untouched |
| FileSystem.FileSys.ListClusters | sw/cheri/common/filesys-utils.hh:801-827 | list, cache and stored position are those of `FileClusters` |
| FileSystem.FileSys.DirNext | sw/cheri/common/filesys-utils.hh:533-656 | entry, name buffer, position and cache are those of `Next` |
| FileSystem.FileSys.DirFind | sw/cheri/common/filesys-utils.hh:678-689 | entry, name buffer, position and cache are those of `Find`, for every name whose comparisons stay in the buffer |
| FileSystem.CompareNames | sw/cheri/common/filesys-utils.hh:699-709 | zero if and only if the names agree up to a NUL or the length, whenever the loop does not read past the buffer |
| FileSystem.CollectInto | sw/cheri/common/filesys-utils.hh:573-601 | the three runs are stored into the name buffer as in `Collect` |
| FileSystem.GenerateInto | sw/cheri/common/filesys-utils.hh:871-893 | the buffer gets name, dot and extension, then a NUL if there is room |
| FileSystem.TakeEntry | sw/cheri/common/filesys-utils.hh:551-651 | one entry is collected, rejected or returned as in `Step` |
| BlockMedium.Medium.ReadBlock | sw/cheri/common/sdcard-utils.hh:162-197 | the block delivered is that of the card's image, through the driver, or that of any other medium |
| CardFiles.ReadFile | sw/cheri/common/filesys-utils.hh:199-247 | a file on the simulated card, read through driver, cache and chain in pieces of any size, with nothing of it cached but its first block as the newest, is exactly the bytes of the image that its chain selects: byte q at 512 heapStart + (chain[q / s] − 2) s + q mod s for clusters of s bytes |
| CardFiles.NothingCached | sw/cheri/common/filesys-utils.hh:478-482 | an empty cache holds nothing of any file and agrees with every card |
| CardFiles.ReadByName | sw/cheri/common/filesys-utils.hh:764-778 | `dir_find` and the reading of the file it opens, over the card driver: a file is found if and only if the directory lists the name, and what is read is the image's bytes of the first such file, whose first cluster and length are given by the bytes of its entry |
| Crc.UpdateCrc16 | dv/dpi/spidevicedpi/spi_microsd.cc:325-334 | the register loop computes the CRC of the start value continued by the data, for every length |
| Crc.Crc16Extends | sw/cheri/common/sdcard-utils.hh:380-390 | the one-shot CRC equals the running CRC kept byte by byte |
| Crc.Crc16Linear | sw/cheri/common/sdcard-utils.hh:380-390 | the CRC of an exclusive or is the exclusive or of the CRCs |
| Crc.BurstChangesCrc | sw/cheri/common/sdcard-utils.hh:380-390 | every corruption within sixteen consecutive bits of data of any length changes the CRC16 |
| Crc.BurstIsRejected | sw/cheri/common/sdcard-utils.hh:406-421 | with the CRC bytes intact such data is rejected and the uncorrupted data accepted |
| Crc.CommandCrcMatches | sw/cheri/common/sdcard-utils.hh:365-376 | the driver's CRC7, shifted with its stop bit, is the card's |
| CrcRemainder.ByteBitsAre | sw/cheri/common/sdcard-utils.hh:383-387 | bits are clocked in most significant first |
| CrcRemainder.Crc16IsRemainder | sw/cheri/common/sdcard-utils.hh:378-390 | the CRC16 of data of any length is the remainder of its bits, followed by sixteen zeros, divided by x^16 + x^12 + x^5 + 1 |
| CrcRemainder.Crc7IsRemainder | sw/cheri/common/sdcard-utils.hh:363-376 | the CRC7 of a command is the remainder of its bits, followed by seven zeros, divided by x^7 + x^3 + 1 |
| CrcRemainder.PolynomialsAsNumbers | sw/cheri/common/sdcard-utils.hh:363-390 | those polynomials are 0x11021 and 0x89, whose low bits the loops add |
| CrcRemainder.CrcBytesAreNumber | sw/cheri/common/sdcard-utils.hh:406-421 | the two bytes after a block are that number, high byte first |
| CrcRemainder.SeventeenBitsCanPass | sw/cheri/common/sdcard-utils.hh:378-390 | the seventeen bits of 0x11021 have CRC zero, so sixteen is the limit |
| MicroSd.Card.Select | dv/dpi/spidevicedpi/spi_microsd.cc:217-221 | a chip-select change drops command, response and read, and not a write |
| MicroSd.Card.Start | dv/dpi/spidevicedpi/spi_microsd.cc:225-288 | each command code gets its response, 32-bit seek and data phase |
| MicroSd.Card.Write | dv/dpi/spidevicedpi/spi_microsd.cc:70-134 | the card's state after a byte is that of `WriteByte` |
| MicroSd.Card.Read | dv/dpi/spidevicedpi/spi_microsd.cc:136-214 | the byte driven, if any, and the state are those of `ReadByte` |
| MicroSd.Card.ReadData | dv/dpi/spidevicedpi/spi_microsd.cc:151-210 | the data phase gives registers or image bytes and then the running CRC |
| SdDriver.FrameStartsCommand | sw/cheri/common/sdcard-utils.hh:263-291 | the dummy byte and six-byte frame start exactly the command and argument sent, whatever address was left over |
| SdDriver.ListenToBlock | dv/dpi/spidevicedpi/spi_microsd.cc:151-205 | 514 bytes from a card at any position are the block, 0xff beyond the image's end, and its CRC16 |
| SdDriver.ReadReplies | sw/cheri/common/sdcard-utils.hh:162-197 | after the response and start token of a read command the driver hears the block and its CRC |
| SdDriver.WriteTakesBlock | dv/dpi/spidevicedpi/spi_microsd.cc:73-113 | token, 512 bytes and CRC bytes leave the image with the block written and the data response pending |
| SdDriver.SeekIsBlockIff | dv/dpi/spidevicedpi/spi_microsd.cc:254-266 | a block is addressed as itself if and only if it is below 2^23; above, numbers alias |
| SdDriver.SdCard.SendCommand | sw/cheri/common/sdcard-utils.hh:263-291 | a quiet card has started the command sent |
| SdDriver.SdCard.GetResponseR1 | sw/cheri/common/sdcard-utils.hh:302-315 | the poll ends with the first response byte below 0x80 |
| SdDriver.SdCard.CollectedData | sw/cheri/common/sdcard-utils.hh:395-423 | after the first start token the data is collected, and with CRC on it is accepted if and only if the CRC matches |
| SdDriver.SdCard.ReadBlock | sw/cheri/common/sdcard-utils.hh:162-197 | reading any block ends with success and the image bytes at the card's seek, 0xff beyond the image's end, the image unchanged |
| SdDriver.SdCard.WriteBlock | sw/cheri/common/sdcard-utils.hh:201-260 | writing one block ends with success and exactly that range of the image replaced |
| SdDriver.SdCard.WriteThenRead | sw/cheri/common/sdcard-utils.hh:162-340 | any block below 2^23 written and read back is the same 512 bytes with success; every other byte of the image is unchanged, and an image that grows has zeros in the gap |
| SdInit.ShortCommanded | dv/dpi/spidevicedpi/spi_microsd.cc:225-288 | what each command without data is answered with, by its number, the card otherwise unchanged |
| SdInit.Init | sw/cheri/common/sdcard-utils.hh:95-152 | every polling loop of the initialisation ends, with success, and the card's image, registers and file position are as they were |
| SdInit.ListenToRegister | dv/dpi/spidevicedpi/spi_microsd.cc:151-205 | eighteen bytes after a register command are the register asked for and its CRC16 |
| SdInit.ReadRegister | sw/cheri/common/sdcard-utils.hh:425-434 | reading either register into sixteen bytes ends with success and exactly that register |
| SpiLink.EightClocksAreOneExchange | dv/dpi/spidevicedpi/spidevicedpi.cc:26-61 | for any device that settles when idle, eight launch and sample edges from a byte boundary ask it once, give it one byte, and carry its byte most significant bit first, 0x00 when undriven |
| SpiLink.CardExchanges | dv/dpi/spidevicedpi/spidevicedpi.cc:26-61 | so for the SD card |
| SpiLink.FlashExchanges | dv/dpi/spidevicedpi/spidevicedpi.cc:26-61 | so for the flash |
| SpiLink.DisplayExchanges | dv/dpi/spidevicedpi/spidevicedpi.cc:26-61 | so for the display |
| I2cBus.ReachableInv | dv/dpi/i2cdpi/i2cdpi.cc:16-194 | every state reachable by samples and resets satisfies it, so the assertion on line 122 holds |
| I2cBus.ReachableFromReset | dv/dpi/i2cdpi/i2cdpi.cc:16-194 | from any state at all, one reset and any samples and resets after it lead to such states |
| I2cBus.RepeatIsIgnored | dv/dpi/i2cdpi/i2cdpi.cc:52-191 | repeating a sample changes nothing |
| I2cBus.I2cDpi.Reset | dv/dpi/i2cdpi/i2cdpi.cc:16-34 | the bus is idle, no device selected, both lines high |
| I2cBus.I2cDpi.Decode | dv/dpi/i2cdpi/i2cdpi.cc:37-194 | new state, calls made and SDA driven are those of the step function |
| I2cTransactions.AckPulse | dv/dpi/i2cdpi/i2cdpi.cc:100-116 | the ninth pulse shows SDA low if and only if a device is selected |
| I2cTransactions.WriteBits | dv/dpi/i2cdpi/i2cdpi.cc:169-179 | eight pulses of a write make exactly one call with the byte signalled |
| I2cTransactions.ReadBits | dv/dpi/i2cdpi/i2cdpi.cc:157-168 | eight pulses of a read put the device's byte on SDA most significant bit first |
| I2cTransactions.AddressIsUpperBits | dv/dpi/i2cdpi/i2cdpi.cc:70-74 | the decoder's address and direction are half the first byte and its remainder |
| I2cTransactions.SegmentRun | dv/dpi/i2cdpi/i2cdpi.cc:37-194 | one transaction makes exactly its calls and leaves the bus ready for the next |
| I2cTransactions.SessionIsDecoded | dv/dpi/i2cdpi/i2cdpi.cc:37-194 | any list of transactions, addressed by the numbers of their first bytes, makes exactly the byte-level calls in order, every byte read is on SDA, and first and written bytes are acknowledged exactly when the address is present |
| I2cTransactions.ResetIsReady | dv/dpi/i2cdpi/i2cdpi.cc:16-43 | reset and one idle sample tell the devices and are ready for a session |
| UsbControl.ControlPipesAgree | sw/cheri/common/usbdev-utils.hh:293-392 | over any sequence of packets received and collected, both implementations keep the same control state, device state and programmed address, and give the same replies |
| UsbControl.SetupIsAnswered | sw/legacy/common/usbdev.c:305-360 | every SETUP packet, given by its numbers, gets the reply and control state of its request: descriptors cut to the requested length, acknowledgements, a stall or nothing |
| UsbControl.EnumerationSucceeds | sw/legacy/common/usbdev.c:305-393 | a host's enumeration with any address and lengths gets the descriptors it asked for and leaves both implementations configured and at that address |
| UsbControl.WaitingForAddress | sw/legacy/common/usbdev.c:336-342 | the address status stage is entered only by a SET_ADDRESS in the setup state, and holds its address |
| UsbControl.ProgrammedAddress | sw/legacy/common/usbdev.c:375-393 | the programmed address is that of the last SET_ADDRESS whose acknowledgement was collected, or the initial one |
| UsbBuffers.WithdrawnIsLost | sw/legacy/common/usbdev.c:276-300 | a packet whose RDY the hardware had cleared is lost when another takes its endpoint |
| UsbBuffers.OvertakenIsDoubled | sw/legacy/common/usbdev.c:281-292 | a withdrawal overtaken by the host ends with a buffer both free and waiting for the host |
| UsbBuffers.PacketSendKeepsIff | sw/legacy/common/usbdev.c:276-300 | for each course of the race with the host: sending keeps every buffer in one place if and only if the endpoint has no unserviced or withdrawn packet and the host does not overtake the withdrawal |
| UsbRuns.PacketSendSafeIff | sw/legacy/common/usbdev.c:276-300 | the caller's condition: sending keeps every buffer in one place whatever the host does if and only if the endpoint has no packet |
| UsbBuffers.StepKeepsIff | sw/legacy/common/usbdev.c:198-451 | a step of the application, of a service phase, of the host or of the hardware keeps every buffer in one place if and only if it is proper |
| UsbBuffers.InitialInv | sw/legacy/common/usbdev.c:101-121 | with all 32 buffers free every buffer is in one place |
| UsbBuffers.EveryBufferInOnePlace | sw/legacy/common/usbdev.c:101-451 | over every proper run, host and hardware steps falling between the phases of a service call too, each of the 32 buffers is in exactly one place |
| UsbBuffers.InvThroughoutIffProper | sw/legacy/common/usbdev.c:101-451 | the runs that keep every buffer in one place throughout are exactly the proper ones |
| UsbRuns.CarefulDriverLosesNothing | sw/legacy/common/usbdev.c:101-451 | from initialisation, if packets go only to endpoints without one, each buffer is in exactly one place whatever the races |
| UsbRuns.ServiceIsRun | sw/legacy/common/usbdev.c:442-451 | an undisturbed service call is one of those runs |
| UsbRuns.SentCommutes | sw/legacy/common/usbdev.c:403-419 | servicing a sent packet commutes with every host and hardware step, so the endpoint loop may be one step |
| UsbExamples.WindowBreaksOwnership | sw/legacy/common/usbdev.c:442-451 | a packet of endpoint zero collected between the sending and receiving phases loses its buffer, and the reply's buffer is freed while it waits |
| UsbExamples.WindowRunBreaksOwnership | sw/legacy/common/usbdev.c:442-451 | a run from initialisation through that window after which a buffer is not in one place |
| UsbExamples.SendOverPacketBreaksOwnership | sw/legacy/common/usbdev.c:276-300 | two runs from initialisation, over a withdrawn and an overtaken packet, after which a buffer is not in one place |
| UsbDevice.Usbdev.BufAlloc | sw/legacy/common/usbdev.c:198-207 | the lowest free buffer is taken, or −1 if none is free |
| UsbDevice.Usbdev.BufRelease | sw/legacy/common/usbdev.c:210-217 | the buffer becomes free, and a free or unknown one is refused without change |
| UsbDevice.Usbdev.SupplyAll | sw/legacy/common/usbdev.c:101-121 | SETUP then OUT FIFO are filled from the lowest free buffers until full or none is left |
| UsbDevice.Usbdev.Send | sw/legacy/common/usbdev.c:276-300 | a waiting packet is withdrawn and its buffer released, then the new one takes the endpoint |
| UsbDevice.Usbdev.ServiceSendingAll | sw/legacy/common/usbdev.c:395-421 | every sent packet is released and endpoint zero's status stage advanced |
| UsbDevice.Usbdev.ServiceRecvingOne | sw/legacy/common/usbdev.c:423-440 | one packet leaves the RX FIFO and its buffer is released or carries the reply |
| UsbDevice.Usbdev.ServiceOnce | sw/legacy/common/usbdev.c:442-451 | sent packets, supply and one received packet in that order, with any host and hardware steps between them; every buffer stays in one place if the reply may be sent by then |
| UsbCopy.Memcpy | sw/legacy/common/usbdev.c:220-257 | the first len bytes match; from the device later bytes are untouched; to the device only the rest of the last word is zeroed |
| FlashDevice.Flash.Write | dv/dpi/spidevicedpi/spi_flash.cc:33-107 | the device's state after a byte is that of `WriteByte` |
| FlashDevice.Flash.Read | dv/dpi/spidevicedpi/spi_flash.cc:116-131 | memory while reading, then pending response bytes, then nothing driven |
| FlashDevice.Flash.CsChanged | dv/dpi/spidevicedpi/spi_flash.cc:134-147 | deselection erases if requested and ends programming and reading |
| FlashDevice.Flash.EraseSector | dv/dpi/spidevicedpi/spi_flash.cc:109-114 | exactly the bytes of the enclosing sector become 0xff, and none when it is beyond the device |
| FlashDriver.CommandsStayShort | dv/dpi/spidevicedpi/spi_flash.cc:39-105 | over every run of bytes and deselections at most five command bytes are held, and a command executes exactly when it is complete |
| FlashDriver.FrameBegins | sw/cheri/common/flash-utils.hh:108-112 | a five-byte frame to a ready flash starts exactly that command at that address |
| FlashDriver.ShortFrameBegins | dv/dpi/spidevicedpi/spi_flash.cc:57-98 | a four-byte frame with a 24-bit address starts the older form of the erase, program or read command at that address |
| FlashDriver.DataIsProgrammed | dv/dpi/spidevicedpi/spi_flash.cc:35-37 | data bytes overwrite consecutive addresses, with the counter's wrap, and drop those beyond the device |
| FlashDriver.ProgrammedWithin | sw/cheri/common/flash-utils.hh:82-106 | within the device programming replaces exactly a slice of the array |
| FlashDriver.SpiFlash.Reset | sw/cheri/common/flash-utils.hh:35-47 | contents and state are kept and any unread response is dropped |
| FlashDriver.SpiFlash.ReadJedecId | sw/cheri/common/flash-utils.hh:49-54 | the three identification bytes are read, whatever response was left unread, and nothing changes |
| FlashDriver.SpiFlash.AwaitIdle | sw/cheri/common/flash-utils.hh:97-105 | the status poll ends and changes nothing |
| FlashDriver.SpiFlash.EraseSector | sw/cheri/common/flash-utils.hh:57-80 | exactly the enclosing 4 KiB becomes 0xff, for every 32-bit address |
| FlashDriver.SpiFlash.WritePage | sw/cheri/common/flash-utils.hh:82-106 | exactly 256 bytes from the address on are overwritten, with the address counter's wrap; within the device that is one slice of the array |
| FlashDriver.SpiFlash.Read | sw/cheri/common/flash-utils.hh:108-115 | the destination range gets the flash bytes from the address on, within the device a slice of the array; contents and the rest of the destination are unchanged |
| BootLoader.FirstFault | sw/cheri/boot/boot_loader.cc:111-124 | no fault if and only if every header is skipped or loadable; otherwise the first in header order |
| BootLoader.DisjointSegmentsAreLoaded | sw/cheri/boot/boot_loader.cc:107-132 | disjoint segments loaded in order leave each with its file bytes then zeros, and all other memory as it was |
| BootLoader.LoadFile | sw/cheri/boot/boot_loader.cc:126-129 | the file part is copied in reads of at most 0x400 bytes, and succeeds if and only if it fits the capability |
| BootLoader.LoadSegment | sw/cheri/boot/boot_loader.cc:126-131 | succeeds if and only if filesz is at most memsz, and then memory is the loaded segment; never writes outside the capability |
| BootLoader.LoadHeader | sw/cheri/boot/boot_loader.cc:111-131 | the header is skipped, loaded or reported with its fault, and only the two memories may change |
| BootLoader.ReadElf | sw/cheri/boot/boot_loader.cc:82-135 | for every flash content: the outcome is the expected one, only the two memories change, reads are at most 0x400 bytes, and on success all segments are loaded, as an image when disjoint |
| BootImage.EhdrIsParsed | sw/cheri/boot/elf.h:31-46 | the fields of every file header, encoded little-endian in this order, are found by the loader |
| BootImage.PhdrIsParsed | sw/cheri/boot/elf.h:48-57 | and those of every program header |
| BootImage.OutcomeIs | sw/cheri/boot/boot_loader.cc:90-134 | for every ELF file in flash the outcome in the values of its headers: magic bytes, 32-bit CHERI RISC-V executable, and the first segment without a capability or with more file bytes than memory, or else the entry point |
| BootImage.ImageIs | sw/cheri/boot/boot_loader.cc:107-131 | with segments apart, memory holds each one's bytes of the file and then zeros, and is otherwise as it was |
| BootImage.BootFile | sw/cheri/boot/boot_loader.cc:82-135 | `read_elf` on an ELF file in flash ends so, and a file that boots is in memory so |
| LcdDevice.Lcd.WritePixel | dv/dpi/spidevicedpi/spi_lcd.cc:150-173 | the pixel is stored and the 16-bit address counters advance |
| LcdDevice.Lcd.Write | dv/dpi/spidevicedpi/spi_lcd.cc:143-262 | the display's state after a byte is that of `WriteByte` |
| LcdDriver.CellIffLogical | dv/dpi/spidevicedpi/spi_lcd.cc:153-162 | each cell is the cell of exactly one pair of driver coordinates |
| LcdDriver.MadBits | dv/dpi/spidevicedpi/spi_lcd.cc:153-160 | bits 7, 6 and 5 of the memory access control byte mirror rows, mirror columns and exchange the two |
| LcdDriver.OthersAreIgnored | dv/dpi/spidevicedpi/spi_lcd.cc:175-252 | every command without effect on the picture takes exactly its parameters, by a table of their numbers, whatever they are, and changes nothing |
| LcdDriver.ResetAndAccess | dv/dpi/spidevicedpi/spi_lcd.cc:180-194 | the reset command clears panel and access control, and the access control byte is kept |
| LcdDriver.Rows | dv/dpi/spidevicedpi/spi_lcd.cc:149-175 | h rows of pixels paint h rows, and pixel mode ends exactly with the last row unless that is 0xffff |
| LcdDriver.StillTaking | dv/dpi/spidevicedpi/spi_lcd.cc:164-171 | before the window's last pixel the display is still in pixel mode |
| LcdDriver.NeverEnds | dv/dpi/spidevicedpi/spi_lcd.cc:165-171 | a window that ends at 0xffff keeps the display in pixel mode for any number of pixels |
| LcdDriver.RowsAreShown | dv/dpi/spidevicedpi/spi_lcd.cc:149-175 | every cell whose coordinates are in the window has its pixel, and every other cell is unchanged |
| LcdDriver.WrappedIsShown | dv/dpi/spidevicedpi/spi_lcd.cc:165-171 | in a window that ends at column 0xffff each cell of its first row has the last pixel the wrapping counter brought to it, and every other cell is unchanged |
| LcdDriver.PixelIsShown | dv/dpi/spidevicedpi/spi_lcd.cc:149-175 | pixel k is in the cell of (x0 + k mod w, y0 + k div w), if that is on the panel |
| LcdDriver.WindowIsDrawn | sw/cheri/checks/lcd_check.cc:123-129 | for every window in order: the frame shows the data, with the wrapping column when the window ends at column 0xffff, and the display is back in command mode if and only if neither end is 0xffff |
| LcdDriver.LcdPort.WriteBuffer | sw/cheri/checks/lcd_check.cc:76-85 | chunks of at most 0x7ff bytes send exactly the data, pixels split or not |
| LcdDriver.LcdPort.Open | sw/cheri/checks/lcd_check.cc:94-115 | window registers are set and pixel mode begins at the window's corner |
| LcdDriver.LcdPort.FillRect | sw/cheri/checks/lcd_check.cc:112-121 | the display has taken exactly the window and the computed count of pixels; for a window in order exactly the cells it reaches have the colour, the low 16 bits with their bytes exchanged |
| LcdDriver.LcdPort.DrawImage | sw/cheri/checks/lcd_check.cc:123-129 | the display has taken exactly the window and the image; a window in order shows it and nothing else changes, and a window without pixels leaves the display in pixel mode |

## Left out

- A medium that changes within one call; each call sees one medium, and calls may see different ones.
- FatFind.FindsFirstOfThatName: is about directories whose names their entries determine: it leaves out an 8.3 entry directly after a stray long-name entry, whose name depends on the old buffer (`NextPasses` and `SearchIsInBytes` say how), and a directory without an end marker (`SearchInFullDirectory`).
- FatFind.FindsInOneCluster: the same.
- SpiLink.EightClocksAreOneExchange: models the edges on values, not on fields.
- LcdDriver.LcdPort.DrawImage: takes windows whose pixel count does not overflow a signed 32-bit product, as the code's arithmetic needs; what a window out of order shows is left at the bytes sent.
- LcdDriver.LcdPort.FillRect: the same.
- SdInit.ReadRegister: takes a buffer of sixteen bytes, the length of the registers; other lengths leave the data phase misaligned.
- UsbBuffers.EveryBufferInOnePlace: takes the loop over sent endpoints as one step, which `SentCommutes` justifies.
- Sectors of other than 512 bytes, the partition table and volume parameters read by `init`; the volume's layout is given.
- The tables of file and directory handles, and so invalid handles; operations take the open object itself.
- Hidden entries, which `dir_next` never marks, and the date and user fields of a directory entry.
- `dir_find` with an ASCII name, which repeats the UCS-2 search, and the leading slash that `file_open` drops.
- UsbControl.ControlPipesAgree: assumes a reply buffer for the CHERI code, which allocates one where the legacy code reuses the received buffer.
- Multiple-block SD commands (the card model does not take their start token), a card without an image, and the ten bytes sent before the card is selected, which reach no device.
- A write abandoned by deselection in the middle of a block.
- Out-of-band signals and logging in all device models, and the I2C devices themselves, which are functions of the calls made.
- Refusal of data bytes on the I2C bus: line 111 acknowledges whenever a device is selected, and the model follows it.
- The USB buffer bitmap is a set of numbers, packet contents stay with the packet, and FIFO depths are parameters.
- The CHERI event handlers are modelled on values; their allocator repeats the legacy one.
- Bytes written before the bound by an access that traps in the boot loader: the access is modelled as not begun.
- Debug output, the choice of the software slot and the jump to the entry point.
- Image file output, the data/command line, which the display model ignores, and display commands without effect on pixels.
