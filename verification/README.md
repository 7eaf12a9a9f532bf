# A verified model of the OBD2 logger's firmware layers

The logger is embedded C: a FAT32 file layer over a two-buffer sector cache over an SD card, and
a request pipeline over a UART ring shared with an interrupt, plus an I2C master for the display.
This project models those layers in Dafny and proves what they guarantee together: what a whole
run of writes leaves on the card, what a power failure may leave, what an interrupt may break,
and what comes out of the text that a vehicle prints. `dafny verify dfyconfig.toml` checks it.

Every layer that works in place is a class or an array method proved against a specification
function of the old state; the properties are lemmas about those functions, over all states, runs
and schedules.

| files | layer |
|---|---|
| `Bytes`, `Store` | fixed-width integers, little-endian fields, a card as sectors of 512 bytes with byte-wise peek and poke |
| `Io`, `IoRefinement` | the sector cache: state, faults, card images; refinement to a flat byte array |
| `FatLayout`, `FatAlloc`, `FatWrite`, `FatRuns`, `FatSizes`, `FatCrash`, `FatIsolation`, `FatChain`, `FatDir`, `FatWalk`, `FatReuse`, `FatBytes`, `Fat` | addresses and entry codec, allocation, one write, runs of writes, sizes, power failure, non-interference, chains, live entries, walk and scan, reuse of a file's clusters, the volume byte by byte, the driver object |
| `List` | the linked list with its nodes on the heap |
| `Fifo`, `FifoInterrupt`, `FifoProgress` | the ring as a latched queue; the ring under preemption; the reader's progress |
| `CStr`, `Hex`, `Elm`, `Obd`, `ObdEndToEnd` | C strings, hexadecimal text, the prompt-framed reader, one command, the whole pipeline |
| `I2c`, `I2cBus`, `Sd`, `SdBus` | the bus transaction against an arbitrary slave; the SPI block protocol over an arbitrary byte stream; both in terms of the bytes and codes on the bus |

Conventions. `View` is the card overlaid with the write buffer: what a caller believes is stored.
`faults` lists the outcomes of the coming sector transfers, a failed sector write leaving an
arbitrary sector behind; `images` lists the whole card after every sector write. `stack` is the
content of an uninitialised entry or file struct on the C stack. `arrivals` are the bytes that the receive
interrupt delivers before each turn of a waiting loop. `U16`, `U32` and `Byte` are the C widths,
with every wrap-around and truncation written out.

## What the proofs found

Where the code falls short of what one would expect of it, a lemma says exactly when; where the
case is not plain from that, another lemma shows one.

- The cached sector addresses have sixteen bits, so a write reaches the right sector if and only if its offset is below 2^25 (`PutRefinesIffAddressable`, `WrongSector`); beyond, the sector lands under its number modulo 65536 (`PutWrapsAround`), and a read leaves the buffer under the wrong number (`GetWrapsAround`).
- A zero-length write that finds both buffers on the directory sector re-reads an outdated entry and takes the last size update back (`WriteCountsIff`, `EntriesOverRuns`, `EmptyWriteLosesSize`).
- The size that a file has after a create and non-empty writes is the number of bytes written since if and only if the file is new or its size was 0 (`SizeIsWrittenIff`).
- Opening adds 2 to the first cluster while creating does not (`ReopenShifts`), so the lists that a scan caches are not the chains of the files. A log written after reopening a cached file begins two clusters past the file's first byte (`ReopenStartsElsewhere`) and leaves a set of clusters alone if and only if the cached cluster is not in it (`ReopenLeavesAloneIff`, `ReopenOnCard`). A new file overwrites an old one's data if and only if the least cluster from 2 on that lies on no such shifted chain is one of the old file's own (`LeavesAloneIff`, `OwnDataKeptIff`); `ScanOfCard` and `OwnDataLost` give a card on which every new file does.
- A create does not enter the file into the cached list. After non-empty writes to a new file, the next create leaves its entry alone if and only if it names a cached file, or the same file and nothing was written (`FirstEntrySurvivesIff`, `SecondCreateReplacesFirst`): creating the same file again loses its size.
- With one cluster of root directory fully cached the next slot lies in the next cluster (`NewSlotInRootIff`, `SlotInRootIff`, `FullRootOverflows`).
- The data of a new file stays clear of the directory if and only if the search does not return the root directory's cluster (`NewDataClearIff`), which it does if and only if no cached list holds that cluster and the lists hold every one from 2 up to it (`ReturnedIff`); with nothing cached it returns 2 (`NothingCached`).
- A ring that was full rejects bytes until it is drained completely (`RunRefines`).
- An interrupt between the tail increment and the status store leaves the ring sound if and only if it does not fill it (`WindowInterruptIff`), and over whole schedules the ring is sound if and only if none has (`SafetyIff`); one that does makes 64 bytes disappear (`FillingEmpties`, `FillingOverwrites`), and `FillingIsReached` is a schedule that gets there. A byte that arrives just before the store is hidden behind EMPTY, in exactly that case (`WindowHidesIff`), and the reader waits until another one comes (`HiddenByteWaits`, `WaitsOnlyIfHidden`): a prompt that is the last byte of an answer may never be seen.
- The results of `fifo_writen` and `fifo_readn` tell whether all bytes went if and only if plain char is signed (`ResultsTellIff`); the firmware is built with unsigned char.
- `elm_read` writes one cell behind a buffer of `len` bytes if and only if `len` bytes arrive and none of the first `len` - 1 is a prompt that no NUL precedes (`OverrunIff`, `FullBufferOverruns`); in `obd_command` that is the cell behind 64 bytes on the stack.
- `obd_command` writes behind an output array of n bytes if and only if the answer has more than 2n hexadecimal digits from the preamble on (`OutputOverrunIff`); the display loop passes thirteen bytes (`LongAnswerOverruns`).
- An I2C status of 0 stands for a failure if and only if the slave's first answer that is not the awaited one is 0 (`ZeroStatusIff`, `SilentSlave`).
- A write command leaves the card selected if and only if the card does not take it (`PutSector`).

Where the source is undefined or plainly not as meant, the model says what it takes instead:
`io_put_byte` has no return on success and is taken to return 0; `fat32_update_fat` stores a data
pointer at line 566 where the number behind it is meant, and the model stores the number;
`initialize_obd` reads bytes 2 to 5 of its answer buffer however short the answer was, and the
model's buffer then holds arbitrary bytes there.

## Model

| member | source | states |
|---|---|---|
| Io.IoCtx.Initialize | src/io.c:21-39 | on a card that answers, both buffers hold sector 0; nothing is written |
| Io.IoCtx.GetByte | src/io.c:41-86 | reads through the input buffer, which is reloaded only when the sector number differs from the 16-bit cached one; a failed load leaves the caller's byte alone |
| Io.IoCtx.ReadNBytes | src/io.c:89-100 | stops at the first failing byte and keeps the bytes read so far |
| Io.IoCtx.PutByte | src/io.c:118-162 | a byte for another sector flushes the dirty buffer, loads the new sector, then stores; each failure leaves the state the C code leaves |
| Io.IoCtx.WriteNBytes | src/io.c:164-175 | stores byte by byte up to the first failure |
| Io.IoCtx.FlushReadBuffer | src/io.c:102-108 | reloads the cached sector from the card, ignoring the write buffer |
| Io.IoCtx.FlushWriteBuffer | src/io.c:110-116 | writes the dirty sector back and records the resulting card image |
| Bytes.Le32RoundTrip | src/include/fat.h:239-251 | four little-endian bytes and a 32-bit number determine each other |
| IoRefinement.StoreByteRefines | src/io.c:118-162 | below 2^25 a stored byte changes exactly that byte of the view, a rejected one changes nothing; the card is written only when the sector changes, and then with the whole old view |
| IoRefinement.WriteBytesRefines | src/io.c:164-175 | under any faults the view receives exactly the bytes counted as accepted, a prefix |
| IoRefinement.WriteBytesReliable | src/io.c:164-175 | without faults all bytes are accepted and the read buffer is untouched |
| IoRefinement.FlushOutRefines | src/io.c:110-116 | a flush never changes the view, and a successful one makes the card equal to it |
| IoRefinement.StepRefines | src/io.c:41-175 | each call of the interface acts on the view as one flat operation |
| IoRefinement.RunRefines | src/io.c:41-175 | write-back refinement: for every run of calls under every fault pattern the view is the flat byte array updated with the accepted bytes, in order |
| IoRefinement.FlushedRunIsFlat | src/io.c:110-175 | after any reliable run and a flush the card alone is that flat array |
| IoRefinement.CoherentRead | src/io.c:41-100 | a read from a coherent input buffer returns the card's bytes |
| IoRefinement.SectorRead | src/io.c:41-100 | within one sector a read returns the buffered or the loaded sector, whichever the code uses |
| IoRefinement.StaleOnlyIfOverwritten | src/io.c:41-175 | over any run the input buffer differs from the card only if a sector write after the buffer was last filled changed its sector |
| IoRefinement.RefreshStaleness | src/io.c:102-108 | a successful refresh ends the staleness |
| IoRefinement.PutRefinesIffAddressable | src/io.c:118-162 | a reliable write to an offset acts on the right byte in every state if and only if the offset is below 2^25 |
| IoRefinement.WrongSector | src/include/io.h:20-35 | every larger offset fails on a concrete blank card |
| IoRefinement.PutWrapsAround | src/io.c:118-162 | beyond 2^25 a put replaces the sector with the number modulo 65536 by the whole sector meant, with the byte in it |
| IoRefinement.GetWrapsAround | src/io.c:41-86 | after a read beyond 2^25 the next read from the address modulo 2^25 is answered with the byte of the first |
| FatLayout.ClusterAddrExact | src/fat.c:30-35 | the 32-bit address of a cluster that fits is the mathematical one |
| FatLayout.ClustersDisjoint | src/fat.c:30-35 | no byte lies in two different clusters |
| FatLayout.SameNameIffSameField | src/fat.c:505-547 | two names compare equal under strncmp exactly when strncpy stores the same field |
| FatLayout.NewEntryFields | src/fat.c:663-673 | a new entry decodes to its name, size 0 and the very cluster that was split into two halves |
| FatAlloc.AddressInDir | src/fat.c:416-438 | true exactly for the clusters of the cached chains |
| FatAlloc.RootEntryFound | src/fat.c:468-486 | true exactly for the slots of the cached files |
| FatAlloc.GetNextCluster | src/fat.c:440-466 | terminates on any lists with the least cluster from 2 on that no cached chain holds, at most 2 plus the number of chain entries |
| FatAlloc.GetNextRootDirLoc | src/fat.c:488-503 | terminates with the least slot that no cached file has, at most the number of files |
| FatAlloc.FindFile | src/fat.c:505-547 | the first cached file whose name and extension both match, or the end |
| FatAlloc.FileExists | src/fat.c:505-547 | the loop over the list finds that first match |
| FatWrite.EntryInOneSector | src/fat.c:602-624 | a directory entry never straddles two sectors, even when its address wraps |
| FatWrite.SectorWrite | src/io.c:118-175 | a write inside one sector writes the card at most once, and then the whole old view |
| FatWrite.UpdateFileSizeExact | src/fat.c:602-624 | the view's entry becomes the entry that the read buffer sees with the size increased, and nothing else changes |
| FatWrite.SettledExact | src/fat.c:697-722 | after the refresh and the flush the data is on the card and the entry sector seen is current, except in one stale case: moving to the data sector has already evicted the dirty directory sector |
| FatWrite.WriteFileExact | src/fat.c:697-727 | the exact card and view after one write of any length, the stale case included |
| FatRuns.Conservation | src/fat.c:697-727 | over every run of non-empty writes the region holds the concatenation, size and position have grown by the sum of the lengths, and no other byte of the view differs |
| FatSizes.EntriesAfterWrite | src/fat.c:602-624 | after a write the card has the view's old entry, and the view has the new size, counted from the outdated entry in the stale case |
| FatSizes.WriteCountsIff | src/fat.c:697-727 | a write adds its length to the visible size if and only if it is not a stale zero-length write over a card whose size is behind |
| FatSizes.EntriesOverRuns | src/fat.c:697-727 | runs of writes of any lengths: a non-empty write commits the view's entry to the card, an empty one exchanges the two copies |
| FatSizes.EmptyWriteLosesSize | src/fat.c:697-727 | a non-empty write followed by an empty one leaves the size as it was before both |
| FatSizes.SizeIsPositionIff | src/fat.c:697-727 | after non-empty writes the size equals the distance the position has moved if and only if it was 0 before |
| FatCrash.WriteBytesSafe | src/io.c:118-175 | appending data keeps every card image durable: entry intact, size not above the data on the card |
| FatCrash.WriteFileImages | src/fat.c:697-727 | every image that one write produces is durable |
| FatCrash.LoggingStep | src/fat.c:697-727 | one non-empty write extends the durable log by its buffer and writes the card |
| FatCrash.CreatExact | src/fat.c:626-685 | creating an uncached name stores exactly the new entry in the view and leaves it unflushed |
| FatCrash.CreatedEntry | src/fat.c:651-681 | after a create the entry read back has the cluster, name and size that were asked for |
| FatCrash.SecondCreateReplacesFirst | src/fat.c:626-685 | a second create of an uncached name reuses slot and cluster and replaces the first entry |
| FatCrash.FirstEntrySurvivesIff | src/fat.c:626-727 | after a new file and any non-empty writes to it, the next create leaves its entry as it is if and only if it names a cached file, or has the new file's name and nothing was written |
| FatCrash.SameEntryIff | src/fat.c:663-673 | two entries made for one cluster are equal exactly when strncmp cannot tell the names apart |
| FatCrash.CrashConsistency | src/fat.c:602-727 | after a create and any non-empty writes, at every sector write from the first flush of the entry on, the card's entry is the created one, its size does not exceed the data on the card, and that data is a prefix of the concatenated buffers |
| FatCrash.WriteFileSteady | src/fat.c:697-727 | all images that one write leaves hold the entry from before it |
| FatCrash.ImagesOfRun | src/fat.c:697-727 | every image of a run counts exactly the bytes of the writes before the one that left it |
| FatCrash.CrashLosesOneWrite | src/fat.c:602-727 | after a create and non-empty writes, whatever image the card is left with, its size is exactly the length of all writes before the one that left the image: a power failure costs at most the size of the last write |
| FatIsolation.SetContextPlacesRoot | src/fat.c:127-172 | the computed geometry puts the root directory sector at the root cluster |
| FatIsolation.SlotInRootIff | src/fat.c:651-661 | a slot lies in the root cluster if and only if its number is below 16 times the sectors per cluster |
| FatIsolation.ReturnedIff | src/fat.c:440-466 | the search returns a given cluster if and only if no cached list holds it and the lists hold every one from 2 up to it |
| FatIsolation.NewDataClearIff | src/fat.c:651-685 | the data of a new file shares no sector with its entry if and only if the search does not return the root directory's cluster; if it does, the log begins at directory slot 0 |
| FatIsolation.NothingCached | src/fat.c:440-503 | with nothing cached the searches return cluster 2 and slot 0 |
| FatIsolation.NewSlotInRootIff | src/fat.c:488-503 | the slot found is below a bound if and only if some slot below it is unused |
| FatIsolation.FullRootOverflows | src/fat.c:488-503 | the first slot past the root cluster is the first byte of the next cluster |
| FatIsolation.OtherClusterIsClear | src/fat.c:155-167 | data in another cluster never shares a sector with an entry in the root cluster |
| FatIsolation.SmallVolume | src/fat.c:626-685 | the assumptions of the isolation theorems are met: on a small blank volume every new name gets slot 1 and cluster 3 |
| FatIsolation.NewFilePlaced | src/fat.c:651-685 | the slot and cluster that the searches find satisfy all placement assumptions of the run theorems |
| FatIsolation.OnlyOwnBytesChange | src/fat.c:626-727 | creating a file and writing at most a cluster changes no byte outside its slot and its cluster |
| FatIsolation.CachedEntryKept | src/fat.c:626-727 | no byte of any cached file's directory slot changes |
| FatIsolation.CachedClusterKept | src/fat.c:626-727 | no byte of any cluster in a cached list changes, but for the new slot in the root cluster; what the lists of a scan are worth to the files is the subject of FatReuse |
| FatReuse.LeavesAloneIff | src/fat.c:440-466 | creating a new file and writing up to a cluster to it leaves a set of clusters alone, for all buffers, if and only if the least cluster in no cached list is not among them |
| FatReuse.InChainIffListed | src/fat.c:298-341 | with all chains ending, the cached lists of a scan hold exactly the clusters on chains that start two clusters past a live entry's first |
| FatReuse.OwnDataKeptIff | src/fat.c:249-258 | so a file's own data survives a new file if and only if none of its clusters is the least one from 2 on that lies on no such chain: a condition on the card alone |
| FatReuse.FirstByteWritten | src/fat.c:697-727 | the first byte written to a new file lands at the start of its cluster and outside its entry |
| FatReuse.ScanOfCard | src/fat.c:298-341 | on a card with a volume label and one file in cluster 3 the scan itself caches the label and the file with the lists [2] and [5, 0], and the search then returns 3 |
| FatReuse.OwnDataLost | src/fat.c:626-727 | on that card every new file is given cluster 3 and some write to it changes the old file's data |
| FatReuse.ReopenedFields | src/fat.c:634-640 | a create of a cached name writes nothing and takes slot, size, list and cluster from the cache; the name stays the caller's, and the position is where that cluster begins |
| FatReuse.NewFields | src/fat.c:669-678 | a create of a new name leaves the struct with size 0 and an empty list |
| FatReuse.ExtendedAfterCreate | src/fat.c:549-685 | a reopened file that is then extended by a cluster outside its cached list is walked, from the cached start, as that list followed by the cluster; a new file extended by its own cluster is a chain of just that one |
| FatReuse.ReopenStartsElsewhere | src/fat.c:626-685 | the log of a reopened file that a scan has cached begins two clusters past the file's first byte, never at it |
| FatReuse.ReopenLeavesAloneIff | src/fat.c:626-727 | writing up to a cluster to a reopened file leaves a set of clusters alone, for all buffers, if and only if the cached cluster is not in it |
| FatReuse.SizeIsWrittenIff | src/fat.c:626-727 | after a create, new or reopened, and non-empty writes, the size is the number of bytes written since if and only if the file is new or its size was 0 |
| FatReuse.ReopenOnCard | src/fat.c:626-727 | on the same card a log written after reopening the file begins at byte 6144 instead of 5120, and its length is added to the old size |
| FatBytes.TablesThenClusters | src/fat.c:127-172 | as long as the addresses do not wrap around, the table begins right behind the reserved sectors, and cluster 2 right behind all copies of the table |
| FatBytes.TableClearOfData | src/fat.c:127-172 | so on such a volume no entry of the first copy of the table shares a byte with the data of any cluster |
| FatBytes.ChainByBytes | src/fat.c:179-225 | a chain is what the bytes of the table say: every cluster's four bytes, least significant first, are the next one, and without their upper four bits only the last one's are 0x0FFFFFF8 or more |
| FatBytes.UpdatedTableBytes | src/fat.c:549-588 | an extension writes the cluster into the old last entry and FF FF FF 0F into the new one, and no other byte |
| FatBytes.ScannedByBytes | src/fat.c:298-317 | a slot is scanned if and only if it is below 16, its entry begins neither with 0xE5 nor, like none before it, with 0x00, and the low half of byte 11 is not 0x0F |
| FatBytes.CachedByBytes | src/fat.c:249-271 | what is cached of an entry, byte by byte: name, extension, size, and the first cluster plus 2 |
| FatBytes.CreatedBytes | src/fat.c:651-674 | a create of a new name writes these 32 bytes into the slot it has found, and no other byte of the view |
| FatBytes.LoggedBytes | src/fat.c:602-727 | after non-empty writes to a new file bytes 28 to 31 of its slot are their length, and the log stands at the beginning of its cluster |
| FatBytes.NeitherCached | src/fat.c:312-317 | a scan of a card with a deleted entry and a part of a long name ends and caches neither; the next new file gets slot 0 |
| FatBytes.DeletedIsSkipped | src/fat.c:312-317 | of a deleted entry and a live one the scan caches only the second |
| FatChain.SetFatEntryAt | src/fat.c:549-588 | writing one table entry changes that entry only |
| FatChain.ChainUnique | src/fat.c:188-225 | from one start cluster at most one chain leads to an end marker |
| FatChain.ChainHasNoRepeats | src/fat.c:188-225 | a chain that ends visits no cluster twice |
| FatChain.ChainLength | src/fat.c:188-225 | a chain that ends has at most as many clusters as the card holds four-byte entries |
| FatChain.ExtendAt | src/fat.c:549-588 | after an extension the new cluster is marked as the end, the old last one points to it, and all others are as before |
| FatChain.ChainExtended | src/fat.c:549-588 | extending with a cluster outside the chain makes the walk from the same start the old chain followed by the cluster |
| FatChain.OtherChainKept | src/fat.c:549-588 | every disjoint chain without the cluster is walked as before |
| FatDir.LiveSlotsExact | src/fat.c:298-341 | the scan's slots are exactly the live non-LFN ones among the first 16 with no terminator at or before them |
| FatDir.LiveSlotsIncrease | src/fat.c:298-341 | in strictly increasing order, below 16 |
| FatDir.ScanStep | src/fat.c:298-341 | one turn of the scan moves its slot from what is left to what is cached |
| FatDir.ReopenShifts | src/fat.c:249-258 | an entry made by a create is opened two clusters further on, never at the same one |
| FatWalk.WalkIsUnique | src/fat.c:188-225 | from any state of the cache, with any failures and any table, at most one walk ends: its list, final state and result are determined |
| FatWalk.ChainIsWalked | src/fat.c:188-225 | from a coherent read buffer a chain that ends is listed exactly, and only a failed transfer can prevent it; nothing but the read buffer changes |
| FatWalk.SuccessIsChain | src/fat.c:188-225 | on a card of at most 32 MB a walk that succeeds has listed a chain to an end marker, as long as no entry address wraps around |
| FatWalk.SmallCardWalk | src/fat.c:188-225 | on such a card no walk, whether it ends well or strays off the card, makes the read buffer incoherent |
| FatWalk.ScanIsExact | src/fat.c:298-341 | from a coherent read buffer, on such a card or when every chain ends, the scan caches exactly the live entries in order, with decoded fields and walked chain wherever the chain ends; if transfers fail, the slots of a prefix of them |
| FatWalk.ChainsEndScanEnds | src/fat.c:298-341 | if every chain ends, so does the scan |
| Fat.UpdateFatRefines | src/fat.c:549-588 | on a reliable card the two writes extend the table of the view as meant |
| Fat.ExtendedChainIsWalked | src/fat.c:549-588 | once both buffers are flushed the card holds the extended chain and every disjoint one unchanged, and the read buffer is coherent, which is what ChainIsWalked requires |
| Fat.Fat32Ctx.constructor | src/fat.c:127-172 | the context holds the geometry of the boot sector and an empty cache |
| Fat.Fat32Ctx.UpdateFileSize | src/fat.c:602-624 | the method's whole effect on the cache state is the specified one, results ignored as in the source |
| Fat.Fat32Ctx.WriteFileNBytes | src/fat.c:697-727 | the write whose runs the theorems describe: data, refresh, flush, size update, position |
| Fat.Fat32Ctx.CreatFile | src/fat.c:626-685 | a cached name is reopened, an uncached one created with the least free slot and cluster |
| Fat.Fat32Ctx.UpdateFat | src/fat.c:549-588 | the file's list grows by the cluster and the card receives the two table entries |
| Fat.Fat32Ctx.GetFat | src/fat.c:188-225 | in every state in which the walk ends: the list, the result and the state are those of the walk; a failed read returns -1 and no list |
| Fat.Fat32Ctx.OpenFile | src/fat.c:227-273 | the file struct takes the entry's fields and the walked list; a failed walk leaves it as it was |
| Fat.Fat32Ctx.CacheRootDir | src/fat.c:275-344 | in every state in which the scan ends: the loop leaves the cache and the state that the scan determines, with stale fields where an open failed |
| List.List.PushHead | src/list.c:11-24 | a fresh node in front, all others kept in order |
| List.List.PushTail | src/list.c:26-52 | a fresh node behind the last one, found by walking; all others kept in order |
| Fifo.WriteRefines | src/fifo.c:22-56 | a write acts on the ring as on a queue with a latch: accepted if and only if the latch is clear |
| Fifo.ReadRefines | src/fifo.c:58-90 | a read succeeds if and only if the queue is not empty, and only emptying it clears the latch |
| Fifo.RunRefines | src/fifo.c:22-90 | in every run of calls the ring cannot be told from the latched queue |
| Fifo.RunConserves | src/fifo.c:22-90 | bytes consumed and bytes left are together the bytes accepted, in order |
| Fifo.WriteNExact | src/fifo.c:92-104 | exactly the bytes that fit are taken, none while latched; the result is -1 only if some did not fit and char is signed |
| Fifo.ReadNExact | src/fifo.c:106-118 | exactly the oldest bytes come out and the rest of the caller's buffer is kept; the result is -1 only if there were too few and char is signed |
| Fifo.ResultsTellIff | src/fifo.c:92-118 | the results tell whether all bytes went, for every ring and all bytes, if and only if char is signed |
| Fifo.Capacity | src/fifo.c:22-118 | an empty ring takes exactly 64 bytes, is FULL with the last of them and not before, and takes no other until all 64 have been read |
| Fifo.RoundTrip | src/fifo.c:92-118 | from an empty ring at any position, writing and reading back up to 64 bytes is the identity |
| Fifo.FifoBuffer.constructor | src/fifo.c:9-20 | the ring starts empty |
| Fifo.FifoBuffer.WriteByte | src/fifo.c:22-56 | the in-place update is the queue's write |
| Fifo.FifoBuffer.ReadByte | src/fifo.c:58-90 | the in-place update is the queue's read; an empty ring leaves the caller's byte alone |
| Fifo.FifoBuffer.WriteN | src/fifo.c:92-104 | stops at the first rejected byte where char is signed; goes on, in vain, where it is not |
| Fifo.FifoBuffer.ReadN | src/fifo.c:106-118 | stops when the ring is empty where char is signed; goes on, in vain, where it is not |
| FifoInterrupt.ReaderKeepsInv | src/fifo.c:58-90 | every single statement of the reader keeps conservation and a sound status |
| FifoInterrupt.InterruptKeepsInv | src/fifo.c:22-56 | so does an interrupt at any statement, unless it fills the ring inside the window |
| FifoInterrupt.InterruptSafety | src/main.c:215-217 | under every interleaving with any number of interrupts, none of which fills the ring inside a window, consumed bytes and bytes in the ring are the accepted bytes, and EMPTY hides at most the bytes accepted since the last tail increment |
| FifoInterrupt.OnceIsSafe | src/main.c:215-217 | one accepted interrupt per window never fills the ring there, and EMPTY then hides at most one byte |
| FifoInterrupt.DrainedIsSafe | src/fifo.c:9-20 | every empty ring starts such a run, wherever its indices are |
| FifoInterrupt.NextWriteReveals | src/fifo.c:35-51 | the next accepted byte makes a hidden one visible |
| FifoInterrupt.WindowInterruptIff | src/fifo.c:71-85 | an accepted interrupt inside the window leaves the ring sound if and only if it does not fill it |
| FifoInterrupt.FillingEmpties | src/fifo.c:71-85 | one that fills it makes 64 unread bytes be reported as none |
| FifoInterrupt.FillingOverwrites | src/fifo.c:35-51 | and the next byte received takes the place of the oldest of them |
| FifoInterrupt.FillingIsReached | src/main.c:215-217 | from every empty ring, 63 bytes, a reader that comes to the window and one more byte lead to the state in which the next interrupt fills the ring |
| FifoInterrupt.SafetyIff | src/main.c:215-217 | over every schedule the ring is sound at the end if and only if no interrupt has filled it inside a window; otherwise at least 64 accepted bytes stay behind for ever |
| FifoInterrupt.WindowHidesIff | src/fifo.c:71-85 | a first byte that arrives inside a window is hidden behind EMPTY at the end of the call if and only if the reader was about to store EMPTY |
| FifoInterrupt.ReaderWaits | src/elm.c:69-74 | against an EMPTY status no number of reader steps consumes anything |
| FifoInterrupt.HiddenByteWaits | src/elm.c:69-74 | so a byte hidden that way is accepted, but not read until another one arrives |
| FifoProgress.WholeRead | src/fifo.c:58-90 | the reader's statements without interrupts are the atomic read: a byte is taken if and only if the ring is not EMPTY, FULL or not |
| FifoProgress.FourStatementsRead | src/fifo.c:71-77 | progress: a reader that finds the ring not EMPTY has consumed the oldest byte after four of its statements, whatever interrupts come between them |
| FifoProgress.DrainsAlone | src/fifo.c:58-90 | left alone it consumes all that has been accepted, with at most seven statements a byte, and leaves the ring EMPTY |
| Hex.Uart.WriteStr | src/uart.c:87-92 | sends the bytes up to the NUL |
| Hex.Uart.WriteHex | src/uart.c:103-113 | the shifting code sends the two digits of the byte |
| Hex.Uart.Write32 | src/uart.c:115-120 | sends the eight digits, most significant byte first |
| Hex.PrintedCharacters | src/uart.c:103-113 | the digits are those of 0123456789ABCDEF, the high one first |
| Hex.PrintedWord | src/uart.c:115-120 | the eight digits of a 32-bit number, the highest first |
| Hex.HexDigitIff | src/obd.c:510-513 | the digits kept are those of both cases, each with its value |
| Hex.FmtResp | src/obd.c:500-527 | the in-place loop, strlen re-evaluated each turn, is the order-preserving filter for hexadecimal digits, and the result tells an odd count |
| Hex.CompactWoven | src/obd.c:500-527 | compaction gives back digits that arbitrary non-digits were woven into |
| Hex.DecodePrinted | src/obd.c:583-592 | decoding pairs inverts printing for every byte sequence |
| Hex.DecodeEitherCase | src/obd.c:583-592 | lower-case digits decode like upper-case ones |
| Hex.HexRoundTrip | src/obd.c:500-592 | print, weave in anything but NUL and digits, compact, decode: the original bytes |
| Elm.CompleteIff | src/elm.c:33-42 | an answer is complete when a prompt has come that no NUL precedes |
| Elm.StopsAtPrompt | src/elm.c:57-91 | for a stream without NUL the reader stops behind the first prompt, or after `len` bytes if there is none among them |
| Elm.StopIsUnique | src/elm.c:57-91 | where it stops is determined by the stream alone |
| Elm.OverrunIff | src/elm.c:69-87 | the cell behind a buffer of `len` bytes is written if and only if `len` bytes arrive and none of the first `len` - 1 is a prompt that no NUL precedes |
| Elm.FullBufferOverruns | src/elm.c:69-87 | a text that fills the buffer overruns it even if it ends in the prompt |
| Elm.ReadUnderInterrupts | src/elm.c:57-91 | with interrupts at any statement of the ring read, none filling the ring in a window, what has been consumed is a prefix of what was accepted, and it ends at a stop of the one exactly when it ends at a stop of the other |
| Elm.WaitsOnlyIfHidden | src/elm.c:69-72 | the reader polls an EMPTY ring short of its stop only if bytes are hidden behind EMPTY, and with one interrupt per window only if the stop is the very last byte accepted |
| Elm.ElmCtx.Receive | src/main.c:215-217 | the interrupt puts a prefix of the arriving bytes into the ring, all of them if there is room and no latch |
| Elm.ElmCtx.Read | src/elm.c:57-91 | with interrupts between the ring calls (ReadUnderInterrupts and WaitsOnlyIfHidden cover the others): stores exactly the bytes up to the stop, NUL-terminated, consumes no others from the ring, writes no cell behind the buffer but that NUL, returns their number modulo 256, and waits on only if no stop is in the stream; nothing received is lost if there was room for it |
| Elm.ElmCtx.Command | src/elm.c:93-102 | the command is sent whole, then the answer is read, with interrupts between the ring calls |
| Obd.SupportedExact | src/obd.c:430-459 | the list holds exactly the PIDs i from 1 on whose bit 32 - i is set |
| Obd.SupportedDescends | src/obd.c:430-459 | in strictly descending order |
| Obd.DecodesIff | src/obd.c:551-595 | an answer decodes, to given bytes, if and only if it contains neither "NO DATA" nor "UNABLE TO CONNECT", and the digits from the first preamble on are even in number and make up these bytes |
| Obd.PreambleIs | src/obd.c:461-498 | the preamble is the mode plus 0x40 in two digits; of three digits the first two |
| Obd.ObdCtx.SetSupportedOps | src/obd.c:430-459 | the shifting-mask loop that pushes at the head builds that list |
| Obd.ObdCtx.DecodeAnswer | src/obd.c:551-595 | failure messages, a missing preamble and an odd count are errors that leave the memory at the output pointer alone; otherwise it begins with the decoded bytes, at most 32 and as many as the answer has, and is kept behind them |
| Obd.ObdCtx.Command | src/obd.c:529-595 | from the stream of received bytes to the result and the memory at the output pointer, for every stream; the cell behind the 64-byte answer buffer becomes NUL if 64 bytes are read and is kept otherwise; a command of another length is rejected before anything is sent |
| Obd.OutputOverrunIff | src/obd.c:583-592 | for an answer that decodes, the cells behind an output array of n bytes keep whatever they hold if and only if the answer has at most 2n hexadecimal digits from the preamble on |
| Obd.ObdCtx.Initialize | src/obd.c:597-634 | succeeds if and only if the answer decodes, and then the list is the one for bytes 2 to 5 of the answer buffer |
| ObdEndToEnd.AnswerIsRead | src/elm.c:57-91 | a legible answer is read to its prompt and no further |
| ObdEndToEnd.AnswerIsDecoded | src/obd.c:529-595 | it decodes to the six bytes that were printed, whatever stands between the digits |
| ObdEndToEnd.EndToEnd | src/obd.c:430-629 | for every 32-bit mask and legible layout the mask is recovered and its list is exactly the supported PIDs from 1 to 31 in descending order |
| ObdEndToEnd.EndToEndByBytes | src/obd.c:430-629 | the same from the bytes: 41 00 and four data bytes in any legible layout decode to these six, and PID p is listed if and only if bit (p - 1) % 8 from the top of data byte (p - 1) / 8 is set |
| ObdEndToEnd.PrintedAnswerDecodes | src/obd.c:529-595 | for every command of a mode below 0xC0 an answer printed as the mode plus 0x40 and any data decodes to just that |
| ObdEndToEnd.AnswerIsHeard | src/elm.c:57-91 | if the stream begins with the answer, or the ring had room for it, a reader whose interrupts fall between the ring calls finishes and has heard it (HiddenByteWaits says what may happen otherwise) |
| ObdEndToEnd.AnswerUnderInterrupts | src/fifo.c:71-85 | with interrupts at any statement of the ring read, none filling the ring in a window, a reader that stops has consumed exactly the answer, and it decodes to the bytes printed |
| ObdEndToEnd.LongAnswerOverruns | src/main.c:136-159 | an answer of fourteen printed bytes decodes and overruns an array of thirteen |
| ObdEndToEnd.InitializeOnAnswer | src/obd.c:597-634 | the initialisation method, given such a stream and interrupts between the ring calls, finishes, succeeds, builds that list and leaves what follows the prompt in the ring |
| ObdEndToEnd.WhiteSpaceIsLegible | src/obd.c:500-527 | every white-space layout that is short enough is legible |
| I2c.Concatenation | test/lcd/lcd_test.c:73-82 | for every slave, splitting the bytes over the address and data arrays in any way gives the same trace, the same bytes read and the same status |
| I2c.TraceLanguage | src/i2c.c:21-134 | success is START, address, bytes, repeated START, acknowledged reads and one last not acknowledged, STOP, with empty parts left out; a NAK exit is a part of it and exactly one STOP; every other exit has no STOP |
| I2c.ReadsCount | src/i2c.c:79-118 | a successful transaction delivers exactly the bytes asked for |
| I2c.StatusIsFirstRefusal | src/i2c.c:21-134 | from the slave alone: success if and only if every event gets its answer, and otherwise the status returned is the first answer that is not the awaited one |
| I2c.ZeroStatusIff | src/i2c.c:120-134 | 0 is returned without success if and only if some event is answered with 0 while every earlier one got its answer |
| I2c.SilentSlave | src/i2c.c:120-134 | a slave that only shows 0: a read of one byte returns 0 and reads nothing |
| I2c.TransactionFollows | src/i2c.c:10-135 | the two loops and the branches follow the one script of events that the bus specification draws |
| I2c.Twi.I2cIo | src/i2c.c:10-135 | the loops over both arrays and the read buffer produce the trace, status and bytes of the transaction, and keep the rest of the read buffer |
| I2cBus.BodyEvents | src/i2c.c:26-118 | event by event: a write is addressed with the lowest bit 0 and a read with 1, both with the device's upper seven bits; then the bytes, the last one read not acknowledged |
| I2cBus.ScriptCodes | src/i2c.c:26-118 | the status each event must get, and the one that makes the master send a STOP, as numbers |
| I2cBus.SuccessIff | src/i2c.c:21-134 | success if and only if after every event the upper five bits of TWSR are those of the awaited number |
| I2cBus.PrescalerIgnored | src/i2c.c:32-34 | two slaves that differ only in the lower three bits of TWSR get the same transaction |
| I2cBus.ReadsFromData | src/i2c.c:100-118 | byte i read is what TWDR holds after the event that receives it |
| I2cBus.DisplayCleared | src/main.c:143-145 | a display that acknowledges with 08, 18, 28, 28 gets START, 50, FE, 46, STOP |
| I2cBus.DisplayMissing | src/i2c.c:35-44 | an address answered with 20: START, 50, STOP, and 20 is returned |
| Sd.ReceiverRecovers | src/sd.c:418-435 | a receiver that skips idle bytes gets back address and data from frame and block, whatever polling surrounds them |
| Sd.TokenIff | src/sd.c:184-212 | the poll finds the token exactly when it is among the 1001 bytes after the command |
| Sd.Spi.InitReadSector | src/sd.c:184-212 | 0 exactly in that case; exactly the CMD17 frame and idle bytes have been sent |
| Sd.Spi.GetBytes | src/sd.c:171-182 | the buffer is filled with exactly the next bytes of the stream |
| Sd.Spi.GetSector | src/sd.c:393-416 | success if and only if the token comes within 1001 bytes after the command; then exactly the bytes after the token are delivered, otherwise the buffer is kept; the frame carries the address; the card is deselected |
| Sd.Spi.InitPutSector | src/sd.c:214-224 | 0 exactly when the command is answered with 0 within seven bytes; the CMD24 frame has been sent |
| Sd.Spi.PutSector | src/sd.c:437-485 | 0 exactly when the command is taken and the block accepted; whenever the command is taken the receiver recovers address and data; a command not taken leaves the card selected |
| SdBus.ReadSucceedsIff | src/sd.c:184-212 | a read succeeds if and only if one of the 1001 bytes behind the command is 0xFE, and takes its data from behind the first of them |
| SdBus.ReadOnTheWire | src/sd.c:184-198 | what is sent in a read: 0xFF, then 0x51, the sector number from its top byte down and 0xFF, then 0xFF |
| SdBus.WriteOnTheWire | src/sd.c:52-72 | the same of the command of a write, with 0x58 |
| SdBus.TakenIff | src/sd.c:86-103 | the command is taken if and only if the first of seven bytes with the top bit clear is 0 |
| SdBus.WriteSucceedsIff | src/sd.c:458-484 | then the write succeeds if and only if of the 128 bytes behind the block the first of the form xxx0xxx1 is xxx00101; a CRC error (xxx01011) or a write error (xxx01101) fails it |
| SdBus.ReceivedIff | src/sd.c:418-435 | what the receiver recovers is the address behind 0x58 and the data behind 0xFE, with only 0xFF before and between them |

## Left out

- AVR registers, pins, timers, the SPI byte exchange and UART transmission: hardware plumbing; SPI and TWI are oracles here.
- Delays, debug output and the dump functions: nothing but printing.
- Sensor formatting with floats and `sprintf`, the LCD layout and the display loop in `main.c`: one-line formulas and user interface.
- `initialize_sd`, `initialize_elm` and the partition lookup: timing, and fixed sequences of calls modelled here.
- `list_free`, closing files and allocation failure: allocation always succeeds and nothing is freed.
- FAT16, long file names, growing a file beyond its cluster and root directories of several sectors: not implemented in the source.
- The byte address and CRC fields of the cache and the remaining struct fields that are only written: no behaviour depends on them.
- Card failures in the file layer: `WriteFile`, `CreatFile` and the driver methods are total under faults, but the theorems about runs of writes assume a card that does not fail, since the source ignores every result there; the cache layer is proved under all faults.
- Busy-waiting without end: `Sd` assumes that the card becomes idle again, and `Read` returns with `done` false where the source would wait for ever.
- The nodes of the cached file list and of a file's cluster list: `Fat` holds their contents as sequences, and `List` proves the list operations on the heap.
- The command records in the list of supported operations: a PID stands for its record, whose index is the PID.
- GetFat: requires that the walk ends, at an end marker or at a failed read, as the source's loop does not end otherwise; OpenFile and CacheRootDir require the same of the walks they make.
- Command: the first two characters of a command are hexadecimal digits, as in every command of the source's table; what `strtol` makes of others is not modelled.
- Read: interrupts inside `fifo_read_byte` are the subject of `FifoInterrupt`; in `Read` bytes arrive between the calls, so a prompt hidden behind EMPTY does not occur there; `ReadUnderInterrupts`, `WaitsOnlyIfHidden` and `AnswerUnderInterrupts` carry the results over.
- AnswerIsDecoded: the two characters of the first byte, 41, stand together, because the source searches for them before it removes the white space.
