# A model of the mtools storage stack

mtools reads and writes MS-DOS file systems on images and devices. This project models the part of
it that decides which bytes go where, and proves that each layer behaves like something much
simpler:

| layer | files | seen from above as |
|---|---|---|
| lower stream, write-back buffer, repeated transfers | `Store.dfy`, `Buffer.dfy` | one flat array of bytes, continued by zeros |
| piecewise address map | `Remap.dfy` | a function from addresses to bytes |
| file allocation table: codecs, sector cache | `FatCodec.dfy`, `FatCache.dfy` | an array of bytes; a sequence of numbers |
| allocator, chain release, reservations | `FatTable.dfy` | pairwise disjoint, acyclic chains of clusters |
| allocator on the sector cache | `FatStack.dfy` | chains that the next program finds again |
| files | `DiskLayout.dfy`, `LoopDetect.dfy`, `FileMap.dfy` | the concatenation of the clusters of a chain |
| files through the buffer | `FileStack.dfy` | bytes that a flush brings to the device |
| directory cache, insert lookup, renaming | `NameFilter.dfy`, `DirCache.dfy`, `SlotRuns.dfy`, `InsertLookup.dfy`, `Rename.dfy` | the list of slots of a directory |
| long names, automatic renaming | `VfatNames.dfy`, `AutoRename.dfy` | a name |
| formatting | `FatLen.dfy`, `FormatParams.dfy`, `BootSector.dfy` | a consistent set of parameters |
| hash table | `Primes.dfy`, `HashTable.dfy` | a multiset |

`Arith.dfy` has the arithmetic all of them need. Products and quotients of variables are written
as `Times`, `Div` and `Mod`, defined by repeated addition and subtraction; lemmas there tie them to
the operators. 32-bit and 16-bit variables that wrap in the source are cut by `U32` and `U16`.

Objects that the source updates in place are classes with the same fields; a failing device, a
short transfer and an unreadable copy of a table are nondeterministic choices; `exit` and failed
assertions are results. Where it matters that nothing fails without a cause, a device is marked as
reliable. Large functions of the source are split into several methods; a row of the
table names the part that has the contract in question.

## What turned out to be false, or true only under a condition

* `normal_map` computes the length of a run in 32 bits (file.c:360). The mapping has length 0 if and
  only if the clusters of the request are adjacent and end exactly 4 GiB behind it
  (`FileMap.File.NormalMap`, `FileMap.StallsExactly`); a caller that repeats short transfers would
  stop there. `FileMap.WholeFileStalls` is a file of 4 GiB - 1 bytes of which nothing is read.
* Padding in `try_cluster_size` takes back the growth of the root directory whenever the rest
  cannot be shared out evenly among the tables, because a negative difference is stored in a 16-bit
  unsigned variable (mformat.c:524-532). `FormatParams.PaddingReaches` is the exact condition under
  which padding uses up what it should; `FormatParams.Params.Pad` proves both directions.
  `FormatParams.PaddingFallsShort` is a disk of 4144 sectors on which it does not.
* The assertion that the clusters fill the disk (mformat.c:347-349) computes its bound in 32 bits. It
  fails if and only if the bound does not fit (`FormatParams.Params.CheckFsParamsAndSetFat`), as it
  does for a disk of 0xffffffff sectors (`FormatParams.LargestDiskAborts`).
* A copy of the table is written only if all copies are kept alike or it is copy number 0, but the
  copy read first is the primary one (fat.c:106, fat.c:147-149). What the next program finds is the
  table, if and only if the first copy was written, which means that `writeAllFats` is set or the
  primary number is a multiple of the number of copies, or has all changed sectors as they are in
  the table anyway (`FatCache.FatCache.RecoverableExactly`, `FatCache.WriteBackAndReopen`).
  `FatCache.TableIsLost` is a table of two copies in which a number is lost.
* When a rename may reuse the slots of its source entry, and what is free behind the source entry is
  read in several pieces, `accountFreeSlots` loses the slots up to the source entry at the second
  piece (vfat.c:762-765). The first place with enough room is found if and only if it does not go
  over the source entry and beyond the first piece (`SlotRuns.Lost`, `InsertLookup.FirstRoomFound`);
  it is always found in a directory that had been read before
  (`InsertLookup.ReadDirectoryFindsFirst`), and so when the lookup is made again.
  `InsertLookup.RenameNeedsSecondTry` is a directory in which only the second lookup finds it.
* Slots of the directory cache belong to one entry each. Adding an entry keeps this if and only if
  its range begins where an entry does and clearing it does not end early
  (`DirCache.DirCache.TakeRange`). A rename wipes the old entry (mmove.c:113, mdel.c:39-55) between
  the lookup and the adding of the new one (vfat.c:351). If the place begins right behind the old
  entry, the slots wiped have been merged with it by then (vfat.c:374-375), and the assertion of
  dirCache.c:198 fails; without assertions a slot is left pointing to an entry that has been cut or
  given up. A rename keeps ownership if and only if the place does not begin right behind the old
  entry; it never does in a directory that had been read before (`Rename.RenameEntry`).
  `Rename.RenameBehindItself` is a directory of six slots in which it does.
* `PreviousRelCluNr` is 65535 while there is no cached position (file.c:722). A first access behind
  65535 clusters or more takes this for a position and starts at cluster 0. If it is a read, and
  the entry of cluster 0 is an end mark as on hard disks, the program stops exactly behind 65535
  clusters, and finds nothing behind more (`FileMap.File.NormalMap`, `FileMap.File.ReadFile`); with
  any mapped access before, or with fewer clusters, this does not happen. `FileMap.FarReadIsLost`
  has both.
* `freeDirCacheRange` returns early when an entry behind a moved end mark disappears
  (dirCache.c:221-223). The range is cleared if and only if no such entry is followed by a slot in
  use inside the range (`DirCache.DirCache.FreeDirCacheRange`); `DirCache.ClearingEndsEarly` is a
  cache in which a slot stays in use.
* A boot sector gives back the parameters it was made from if and only if the table length and the
  number of root directory entries fit into 16 bits, for 12-bit and 16-bit tables
  (`BootSector.ReadsBack`). `BootSector.LongDirectoryIsLost` is a consistent set of parameters with
  65536 root directory entries that does not come back.
* `fsPreallocateClusters` compares each new reservation with all free clusters, without deducting
  earlier reservations (init.c:621-628). All that is reserved can be used if and only if, at each
  grant, the free clusters sufficed for it and for all reserved before
  (`FatTable.Fs.ReserveAndUse`); `FatTable.TwoGrantsTooMany` grants four clusters of three. While
  all that is reserved is free, a write within the announced size is not refused
  (`FileMap.File.WriteFile`).
* The tail of a short name is counted up if and only if it does not need another digit in place of a
  space that has characters behind it (`AutoRename.AnyTailIsCountedUp`).
  `AutoRename.SpacedLabelLosesTail` renames the base `A~9 BCDE` to `A~10BCDE`, which has no tail any
  more. Names of files have no such bases, since their conversion drops spaces (file_name.c:67-70);
  volume labels keep theirs (mlabel.c:28-68).

## Model

| member | source | states |
|---|---|---|
| Buffer.Buffer.MtBufFlush | buffer.c:64-99 | The view does not change; on success, and only then, nothing is dirty any more, and the stream below equals the view everywhere. |
| Buffer.Buffer.InvalidateBuffer | buffer.c:101-112 | The window is emptied and moved to the sector of the request without changing the view; on a failed flush it stays. |
| Buffer.Buffer.IsInBuffer | buffer.c:124-149 | Classifies a request as inside, appended or outside the window and cuts its length accordingly; the view is kept, some length is always left, and it fails only if the stream below does. |
| Buffer.Buffer.BufPRead | buffer.c:151-196 | Every byte returned is the byte of the flat view; 0 only at the end of the stream or for an empty request; giving up happens only for an unaligned read behind the end, an error only if the stream below fails. |
| Buffer.Buffer.BufPWrite | buffer.c:198-330 | The view becomes the old view overlaid with the part that was taken, and nothing else changes; a non-empty write always makes progress, unless the stream below fails. The invariant keeps all indices inside the window and the dirty stretch inside its filled part. |
| Buffer.Buffer.PlaceWrite | buffer.c:220-308 | Makes room for a write in all four cases of the source without changing the view; the place is inside the window or ends on a sector border. |
| Buffer.Buffer.DirtyRange | buffer.c:310-326 | The new dirty stretch covers the old one and the write, in whole sectors, and reaches no further than the filled part. |
| Buffer.Buffer.BufFlush | buffer.c:332-343 | After a successful flush the stream below is the flat view. |
| Buffer.ForcePRead | force_io.c:29-53 | Repeated reads return consecutive bytes of the view; without an error they stop short only at the end of the stream. |
| Buffer.ForcePWrite | force_io.c:29-53 | Repeated writes end, and are complete unless the stream below fails; the view is overlaid with what was written. |
| Buffer.Run | buffer.c:151-343 | For every sequence of reads, writes and flushes the answers are those of one flat array, and the view is that array at the end. |
| Remap.ParsedIsOrdered | remap.c:114-176 | The items of a map begin at address 0 and never go back; they are of data or of zeros, and there is always one. |
| Remap.Remap.ProcessMap | remap.c:114-176 | The counting pass and the filling pass find the same number of items; the filling pass stores exactly the items the string stands for and stays inside the table. |
| Remap.Remap.Setup | remap.c:179-218 | Both passes together: it fails exactly on a malformed string and otherwise leaves the items and the net offset of the string. |
| Remap.Remap.RemapAddress | remap.c:46-55 | The request is cut exactly at the end of the item it begins in, and each of its addresses goes to the place below that the item gives it; a non-empty request stays non-empty. |
| Remap.Remap.RemapPRead | remap.c:57-67 | The bytes returned are those of the address map; it returns 0 only where data ends below. |
| Remap.Remap.ForcePRead | remap.c:46-67 | A read that is clipped and repeated returns the item-by-item concatenation of data and zeros, and stops short only at data, on an error or at the end of the stream below. |
| Remap.Remap.RemapPWrite | remap.c:69-90 | An address shows what has been written if and only if its place below is one of those written to; if different addresses of data have different places, exactly the addresses written change. At an address of zeros it is refused exactly if a non-zero byte lies in the item, and otherwise takes the whole of the item; elsewhere nothing is refused unless the stream below fails. |
| Remap.WrittenPlaces | remap.c:69-90 | If the places of different addresses differ, writing to places is writing to the addresses of one item. |
| Remap.MapWithoutPosIsInjective | remap.c:155-171 | Without position items, different addresses of data go to different places below. |
| Remap.ForwardIsInjective | remap.c:46-55 | If the places of data items only go forward, the address map is injective on data. |
| Remap.MapOfFourItems | remap.c:114-176 | A map with one item of each word, byte by byte: `zero` gives zeros, `skip` passes over the stream below, `pos` goes on from the given byte. |
| FatCodec.EncodedEntry | fat.c:289-397 | For all three widths: an encoded entry decodes to the code cut to its width, and every other entry, and the top four bits of 32-bit entries, stay. |
| FatCodec.Encoded12Entry | fat.c:289-326 | 12-bit packing: the code comes back, and the neighbour that shares a byte is unchanged. |
| FatCodec.Encoded16Entry | fat.c:337-354 | 16-bit entries: the code comes back and no other entry changes. |
| FatCodec.Encoded32Entry | fat.c:384-397 | 32-bit entries: 28 bits come back, the reserved bits of all entries stay. |
| FatCodec.EncodedTable | fat.c:289-397 | Encoding an entry of the bytes is updating one number of the decoded table. |
| FatCodec.EntryLayout | fat.c:296-403 | Which bytes make up an entry: 12-bit entries number 2k and 2k + 1 are the low and the high digits of bytes 3k to 3k + 2; 16-bit and 32-bit ones lie at 2 and 4 times their number, least significant byte first, without the top four bits of 32. |
| FatCodec.PairLayout | fat.c:296-326 | Two 12-bit entries that share a byte are together the little-endian number of their three bytes. |
| FatCodec.FloppyTable | fat.c:296-326 | The bytes f0 ff ff 03 40 00 ff 0f are a table in which cluster 2 leads to 3, 3 to 4, and 4 is the last of its file. |
| FatCache.FatCache.FatReadSector | fat.c:96-136 | A bulk read or a single read touches no sector that is in memory, and brings what the copy had at the beginning, whatever has been written since. |
| FatCache.FatCache.TryCopies | fat.c:190-213 | Copies are tried until one answers; if some copy can always be read, one does. What is brought is what a copy had, and what the first copy had if all that may answer were alike. |
| FatCache.FatCache.LoadSector | fat.c:159-232 | A sector is brought into memory, with prefetch, without touching any sector in memory; the table keeps all sectors that are in memory, and all others too if the copies that may answer were alike; writing marks the sector, and at most its successor, as changed. |
| FatCache.FatCache.GetAddress | fat.c:235-257 | The shortcut for the last sector and the slow path give the same place; in write mode the sector is marked as changed, which the shortcut relies on. |
| FatCache.FatCache.Fat12Decode | fat.c:289-304 | The entry of the byte array, or 1 for a bad number or an unreadable sector, even across a sector border; the array stays as it is if the copies that may answer were alike. |
| FatCache.FatCache.Fat12Encode | fat.c:311-326 | The byte array becomes the encoded one, even if the two bytes lie in different sectors. |
| FatCache.FatCache.Fat16Decode | fat.c:337-343 | The entry of the byte array, or 1 if it cannot be read. |
| FatCache.FatCache.Fat16Encode | fat.c:345-354 | The byte array becomes the encoded one; a code above 16 bits is refused. |
| FatCache.FatCache.Fat32Decode | fat.c:384-390 | The 28 bits of the entry of the byte array, or 1 if it cannot be read. |
| FatCache.FatCache.Fat32Encode | fat.c:392-397 | The byte array becomes the encoded one, with the top bits kept. |
| FatCache.FatCache.FatDecode | fat.c:770-780 | Through the cache, decoding answers the number of the decoded table, which is the one made up of the bytes of the table at the places of its width. |
| FatCache.FatCache.FatEncode | fat.c:807-809 | Through the cache, encoding updates one number of the decoded table. |
| FatCache.FatCache.FatWriteSector | fat.c:139-157 | At most one sector of one copy changes on the device, and only if the copy is kept. |
| FatCache.FatCache.WriteCopy | fat.c:435-463 | One pass over the slots writes all changed sectors to one copy and nothing else; after the last pass none counts as changed. |
| FatCache.FatCache.FatWrite | fat.c:420-488 | Afterwards no sector is marked, the copies written have the changed sectors as they are in memory, all else on the device is as before, and the cache is in order whatever copies were written; the last-access mode is reset so that this holds. |
| FatCache.FatCache.RecoverableExactly | fat.c:96-157 | What a write back leaves on the copy tried first is the table if and only if that copy is written or has all sectors ever changed as they are in the table; it is written if and only if all are, or the primary number is a multiple of the number of copies. |
| FatCache.WriteBackAndReopen | fat.c:420-488 | A new cache over the same device starts with the same table if and only if the first copy was written or has all changed sectors anyway; sector by sector it has what was written or what the first copy had. Copies stay alike if all are written. |
| FatCache.StillAlike | fat.c:96-157 | Copies that were alike and are all written are alike again, so that it does not matter which one the next program reads. |
| FatCache.WriteThenDecode | fat.c:420-488 | The number the next program decodes is the number of the table. |
| FatCache.TableIsLost | fat.c:139-157 | With two copies, the second primary and only one written, a number stored is not the number the next program decodes. |
| FatTable.NewChain | fat.c:800-805 | A free cluster made the end of a chain is a new file; all chains stay acyclic, in range and disjoint. |
| FatTable.ExtendChain | fat.c:783-789 | A free cluster put behind the last one of a chain lengthens that chain; all chains stay acyclic, in range and disjoint. |
| FatTable.WrapOrderIsPermutation | fat.c:819-857 | The wrapped search looks at each cluster exactly once. |
| FatTable.Fs.FatDecode | fat.c:770-780 | Answers the entry; the error count goes up by one exactly for a value outside the table that does not end a chain. |
| FatTable.Fs.FatAppend | fat.c:783-789 | Links and terminates a new last cluster; the count of free clusters goes down by one and, when known, stays exact. |
| FatTable.Fs.FatAllocate | fat.c:800-805 | A free cluster becomes a file of its own, or with another value than an end mark part of no file; the count of free clusters stays exact. |
| FatTable.Fs.FatDeallocate | fat.c:792-797 | A used cluster outside all chains becomes free; the count of free clusters stays exact. |
| FatTable.Fs.FatEncode | fat.c:807-817 | An entry outside all chains is replaced; the count of free clusters stays exact for any old and new value. |
| FatTable.Fs.GetNextFreeCluster | fat.c:819-857 | The first free cluster behind the one found last, or behind the hint if there is none, and from cluster 2 on where there is none behind it or it is no cluster; failure means none is free or an entry is unreadable. |
| FatTable.Fs.GetFree | fat.c:897-919 | The stored count, made exact if it was unknown or 0, is the number of zero entries. |
| FatTable.Fs.GetFreeMinClusters | fat.c:925-981 | With a known or unknown count: yes if and only if there are enough free clusters, as long as all entries can be read. |
| FatTable.Fs.UseReservation | fat.c:819-981 | If n free clusters are granted, then n searches, each followed by an allocation, all find distinct clusters that were free; the grant is given if and only if there are n. |
| FatTable.Fs.FsPreallocateClusters | init.c:621-628 | A reservation is entered if and only if that many clusters are free. |
| FatTable.Fs.Take | fat.c:800-857 | Of n searches, each followed by an allocation, all succeed if and only if n clusters are free; each takes a cluster of its own that was free, and nothing else changes. |
| FatTable.Fs.UseUp | init.c:638-641 | What is reserved can be used up, each cluster allocated being given back to the reservation, if and only if no more is reserved than is free; otherwise exactly what is missing stays reserved. |
| FatTable.Fs.ReserveAndUse | init.c:621-641 | Any list of reservations: each is granted by itself, and all granted can be used if and only if each, together with all before it, did not exceed the free clusters. |
| FatTable.TwoGrantsTooMany | init.c:621-641 | With three clusters free, two reservations of two are granted and cannot both be used. |
| FatTable.Fs.Release | fat_free.c:29-48 | The loop frees exactly the clusters of the chain it follows and counts each of them. |
| FatTable.Fs.FatFree | fat_free.c:29-48 | Exactly the clusters of the released chain become free, all other chains stay, and the number of free clusters grows by the length of the chain. |
| FatStack.FileSystem.Lookup | fat.c:770-780 | A number decoded from the cached bytes is the number of the table the allocator works on; a bad one is counted once for allocator and write back. |
| FatStack.FileSystem.Allocate | fat.c:800-805 | Allocating in the bytes and in the table keeps them in agreement. |
| FatStack.FileSystem.Append | fat.c:783-789 | Lengthening a chain in the bytes and in the table keeps them in agreement. |
| FatStack.FileSystem.Deallocate | fat.c:792-797 | Freeing a cluster in the bytes and in the table keeps them in agreement. |
| FatStack.FileSystem.Free | fat_free.c:29-48 | The release loop on the bytes frees exactly one chain, or nothing after an error. |
| FatStack.FileSystem.Save | fat.c:420-488 | The table the next program decodes is that of the allocator, with all chains in order, if the first copy was written or had all changes anyway. |
| LoopDetect.StepIsSound | file.c:139-153 | A step of a walk raises the alarm exactly if the walk has come back to the cluster remembered; otherwise no repetition has escaped notice so far, wherever the mark has been moved. |
| LoopDetect.Remember | file.c:147-151 | Moving the remembered position forward lets no repetition escape notice. |
| LoopDetect.MtCountBlocks | file.c:161-178 | For arbitrary table contents the count ends; it is the exact length of a loop-free chain, and at most three times the number of distinct clusters plus one otherwise. |
| LoopDetect.EndsOrRepeats | file.c:139-178 | A chain that ends does not come back to an earlier cluster before its end, so an alarm always means a loop. |
| DiskLayout.Layout.BaseInSectors | file.c:378-380 | The address of a cluster, built up cluster by cluster, is the one computed from sector numbers. |
| DiskLayout.Layout.RunIsContiguous | file.c:360-380 | Along adjacent clusters, file bytes follow each other on disk. |
| DiskLayout.Layout.InjectiveAddress | file.c:378-380 | Two bytes of files share a disk address only if they are the same byte of the same cluster. |
| FileMap.ClipProgress | file.c:360 | The clipped length is 0 if and only if the run ends exactly 4 GiB behind the request. |
| FileMap.StallsExactly | file.c:330-360 | Clipped to the run the walk has found, a request has length 0 if and only if its clusters are adjacent and end exactly 4 GiB behind it. |
| FileMap.ClipIsExtent | file.c:360-380 | The clipped request is an extent of the run on disk, and the consistency check behind it never fires. |
| FileMap.ClipMaps | file.c:360-380 | The clipped request is empty only if it stalls, and well below 4 GiB it ends early only where the next byte of the file lies elsewhere. |
| FileMap.WholeFileStalls | file.c:270-385 | A file of 4 GiB - 1 bytes in adjacent clusters of 32 KiB, asked for as a whole: the mapping has length 0 and nothing is read. |
| FileMap.File.FirstCluster | file.c:292-305 | The first cluster of an empty file is a new chain; failure means the disk is full or unreadable. |
| FileMap.File.Extend | file.c:335-343 | A chain grows by one cluster behind its last; failure means the disk is full or unreadable. |
| FileMap.File.LoopDetectStep | file.c:156-159 | On a chain without repetition the kept pair is always a true point of the chain, and there is never a false alarm. |
| FileMap.File.Step | file.c:320-358 | One round of the walk keeps to the chain, grows it only for writing, and stops where the adjacent clusters do; from cluster 0 it does not go on. A cluster the chain grows by has been free. |
| FileMap.File.Walk | file.c:308-358 | From the cached position or the beginning, the walk ends at a cluster of the chain reached over adjacent clusters, and caches the position of the request; space is short only if the chain does not reach the last cluster asked for. After a false start it ends at once. |
| FileMap.ClipToRun | file.c:360-380 | The extent covers the rest of the run unless the request ends earlier, and the consistency check of the source fires exactly after a false start at cluster 0. |
| FileMap.File.NormalMap | file.c:270-382 | For every chain, cached position and request the answer is a disk extent whose bytes are exactly the file bytes asked for, as long as the run goes; it is empty if and only if the clusters asked for are adjacent and end exactly 4 GiB behind the request; reading changes no chain, writing only lengthens this one, by clusters that were free; the cached position is a true point of the chain afterwards. After a false start the program stops, or nothing is found, depending on the cluster asked for. |
| FileMap.File.ExtentOwner | file.c:378-380 | An address inside a mapped extent belongs to this file and to no file on another chain. |
| FileMap.File.ReadFile | file.c:405-423 | The bytes returned are the bytes of the file at the read position, which advances by as much and stays inside the file; nothing is returned only at the end of the file, of its chain or of the device, on an error of the device, exactly if the mapping is empty, or after a false start. |
| FileMap.File.PReadFile | file.c:467-472 | The same at a given position; a read that brings something leaves a true cached position. |
| FileMap.FarReadIsLost | file.c:307-358 | A first read of a long file behind 70000 clusters brings nothing, one behind 65535 clusters stops the program; the file has the byte both times. |
| FileMap.File.WriteFile | file.c:425-465 | Exactly the bytes written change, in this file; no other byte of this file and no byte of any other file changes; the file grows to the new position if that lies behind its end; -2 means there is no space, and is not answered for a write within the announced size while the reservations are covered, which they stay; -1 is an error of the device, 0 an empty request, the end of what a file can hold, or an empty mapping. |
| FileMap.File.FilebytesToClusters | file.c:96-101 | The least number of clusters that holds the bytes. |
| FileMap.File.RecalcPreallocSize | file.c:103-137 | The reservation of a file is what its announced size still needs, and the total follows it; on failure the reservation stays; it does not fail if the need has not grown. |
| FileMap.File.PreAllocateFile | file.c:590-603 | A greater size is announced, and the reservation is what it needs if that was granted; the total follows it. |
| FileMap.File.LastIsNeeded | file.c:96-137 | The last cluster of a request within the announced size is one of those that size needs. |
| FileMap.File.MapToWrite | file.c:292-343 | Mapping for a write within the announced size finds a free cluster whenever it needs one, if the reservations of all files, less what the chain has beyond the size of this one, were free before; they are so again. |
| FileMap.File.Advance | file.c:457-463 | Position and size move on, and the reservations stay covered up to the announced size. |
| FileStack.BufferedFile.Read | file.c:405-423 | What is read is what the buffer shows at the addresses of the clusters of the file; the buffer shows the same afterwards. Where the file has something to read, nothing is returned exactly if the mapping is empty, or at the end of the device; a negative answer is an error below or an access behind that end. |
| FileStack.BufferedFile.Write | file.c:425-465 | Through the buffer, exactly the bytes written change, of all bytes of all files; a write within the announced size is not refused for lack of space while the reservations are covered. |
| FileStack.BufferedFile.Flush | buffer.c:332-343 | After a flush every byte of every file is on the device. |
| NameFilter.HashFoldsCase | dirCache.c:33-60 | Spellings of one name have one hash. |
| NameFilter.AddedIsFound | dirCache.c:62-109 | No false negatives: a name that was added is found in every spelling, whatever is added later. |
| NameFilter.CalcHashRespects | dirCache.c:33-60 | The hash of the source meets what the lookup needs of a hash. |
| DirCache.DirCache.GrowDirCache | dirCache.c:111-133 | The table has room for the slot and is otherwise unchanged; slots still belong to an entry exactly if they lie between its ends. |
| DirCache.DirCache.FreeDirCacheRange | dirCache.c:173-229 | The slots are cleared up to where the loop stops, and an entry reaching beyond is cut at the front. If the range begins where an entry does, slot ownership holds throughout, and the whole range is cleared if and only if no entry in it whose end mark has moved is followed by a slot in use; otherwise the slot before the range is left behind. |
| DirCache.DirCache.TakeRange | dirCache.c:231-257 | A new entry is put over any range; slots still belong to one entry each if and only if the range begins where an entry does and clearing it does not end early. |
| DirCache.ClearingEndsEarly | dirCache.c:188-228 | A cache with a moved end mark in which clearing two slots leaves the second one in use. |
| DirCache.DirCache.AllocDirCacheEntry | dirCache.c:231-257 | A new entry is put over any range, and ownership survives under the same condition; if the range is also behind the hashed entries, all other slots keep what they had, but for the entry of a file cut in two, and neighbouring free entries can only arise at the two ends. |
| DirCache.DirCache.HashDce | dirCache.c:93-101 | The hashed prefix grows only by the entry that follows it, after both its names are in the filter. |
| DirCache.DirCache.AddUsedEntry | dirCache.c:259-287 | Ownership is kept if and only if the range begins where an entry does and clearing it does not end early; if it is also behind the hashed entries, the slots are those of the new entry, all others as before, and merged free entries and the hashed prefix are kept. |
| DirCache.DirCache.MergeFreeSlots | dirCache.c:294-311 | Two free entries that meet become one, never an entry with itself; what a slot is does not change, and borders merged before stay merged. |
| DirCache.DirCache.AddFreeEndEntry | dirCache.c:315-339 | The slots are free and merged with free neighbours, all others as before; the hashed prefix ends before them. |
| DirCache.DirCache.AddEndEntry | dirCache.c:348-351 | Ownership is kept under the same condition; then the slot is the end of the directory and all others are as before. |
| InsertLookup.ScanState.AccountFreeSlots | vfat.c:757-771 | The account knows where the run of free slots begins, but for slots up to the source entry once more than one piece behind it has been met; the place found is the first with enough room that this allows. |
| SlotRuns.PlaceInPiece | vfat.c:766-770 | The known part of the run is long enough exactly if the place lies in the slots met last, and then it is where the account puts it. |
| InsertLookup.FirstRoomFound | vfat.c:790-898 | Where no name clashes, the place reported is the first room in the directory, or there is none, if and only if the first room is not lost. |
| InsertLookup.ReadDirectoryFindsFirst | vfat.c:730-755 | In a directory that had been read before, or in which what is free behind the source entry had been, the first room is found. |
| InsertLookup.RenameNeedsSecondTry | vfat.c:757-771 | Four slots in a row, one of them the entry to be renamed: the first lookup answers that there is no room, the second one finds it. |
| InsertLookup.Directory.ReadMore | vfat.c:460-549 | Reading on leaves a cache that agrees with the directory; it stops behind a deleted entry, or behind the entry or the end that follows free slots, and earlier slots are unchanged. |
| InsertLookup.Directory.LookupEnd | vfat.c:489-497 | A lookup not in search of free space enters the end of the directory behind free slots it leaves out; the cache agrees with the directory all the same, and reading goes on before them. |
| InsertLookup.Directory.EntryForInsert | vfat.c:730-755 | The entry at a slot, cached or read; it is the end only at the end of the directory, and no more is read than it takes. |
| InsertLookup.Directory.FreeEntryIsRun | vfat.c:844-847 | A free entry of the cache covers a run of free slots that nothing free precedes, up to its end or to where the directory has been read. |
| InsertLookup.Directory.HashedEntriesSkipped | vfat.c:829-843 | Starting behind the hashed entries is as good as starting at slot 0: none of them has one of the names, and none is free. |
| InsertLookup.Directory.ScanUsed | vfat.c:848-884 | The first entry with the long name stops the scan; the last one with the short name is remembered; labels and the ignored entry never match. |
| InsertLookup.Directory.Scan | vfat.c:844-897 | From any start that has been passed over rightly, the verdict is that of a scan of the whole directory, source entry or not; without a long match the directory has then been read to its end. |
| InsertLookup.Directory.LookupForInsert | vfat.c:790-898 | The verdict is that of a scan from slot 0, whether or not hashed entries were skipped, and names the one place the directory and what had been read of it determine: where no name clashes, the first room, or none if there is none, if and only if the first room is not lost; -2 is answered only to a pessimistic caller, on the word of the filter. |
| InsertLookup.VerdictIsUnique | vfat.c:790-898 | The directory, the names and what had been read before determine the verdict: code, clash and place. |
| InsertLookup.VerdictOnNames | vfat.c:848-898 | In terms of names: a clash is an entry of a file, not the ignored one, with one of the names, where the long name clashes with both names of an entry and the short one with its short name only; without a clash there is no such entry. |
| InsertLookup.VerdictOnPlace | vfat.c:790-898 | In terms of slots: those of the place are free or of the source entry; without a source entry, every earlier place, and every place if none is found, has a slot in use. |
| SlotRuns.StartOfPlace | vfat.c:757-771 | No slot that may be taken lies right before the place the scan finds, but for the old entry when the first room is lost. |
| Rename.DirWriteDeleted | vfat.c:357-381 | A slot marked as deleted makes its whole entry free; all other slots are as before. |
| Rename.WipeEntry | mdel.c:39-55 | After slot by slot has been marked, the slots of the entry are free, merged with free neighbours, and all others as before. |
| Rename.FreePlace | dirCache.c:173-229 | Free slots can be taken from a place on, in the sense of the cache, if and only if no free slot lies before it. |
| Rename.AddRenamed | vfat.c:342-352 | With the old entry wiped, adding the new one keeps ownership if and only if the slot before the place could not be taken; then the cache shows what the directory holds, and every slot of the place shows the new short name as the short name and the new long name, if there are slots for it, as the long one. |
| Rename.WhereItBegins | vfat.c:757-771 | The place begins right behind the old entry exactly if a slot that may be taken lies before it, and not if what is free there had been read before. |
| Rename.RenameEntry | mk_direntry.c:484-517 | For every directory and request: the verdict of the lookup; where it finds a place, the cache keeps ownership, and shows what the directory holds afterwards, if and only if the place does not begin right behind the old entry; it does so whenever what is free there had been read before. Every slot of the place then shows one entry of a file, with the names asked for, each in its place. |
| Rename.NewEntryClashes | vfat.c:848-898 | In the directory after a rename the new entry clashes with its own short name, and with its own long name, which no other entry has. |
| Rename.RenameThenLookup | mk_direntry.c:484-517 | A second lookup for the same names, as for a new file, answers a clash; it is the new entry itself if it has a long name, unless a pessimistic caller is told on the word of the filter. |
| Rename.RenamedHolds | vfat.c:288-354 | What the directory holds after a rename is a well-formed directory. |
| Rename.RenameBehindItself | mmove.c:113 | A directory of six slots in which the place begins right behind the old entry: ownership is lost. |
| VfatNames.SumShortname | vfat.c:245-255 | The loop computes the one checksum of the name: each byte is added to the number whose rotation to the left is the sum before it. That of FOO     TXT is 0x65. |
| VfatNames.SumIsRight | vfat.c:230-255 | The checksum is the only number that adding and rotating to the right, stated by the inverse rotation of the bits, can give. |
| VfatNames.SumTellsOneByte | vfat.c:245-255 | Short names that differ in exactly one byte have different checksums. |
| VfatNames.UnicodeWrite | vfat.c:171-196 | The bytes of the name, a zero behind it, then 0xffff. |
| VfatNames.UnicodeRead | vfat.c:199-218 | Units are put into their place and nothing else is touched. |
| VfatNames.TextRoundTrip | vfat.c:171-218 | Units read back are the units written. |
| VfatNames.EntrySpelled | vfat.c:309-340 | An entry byte by byte: five, six and two units, low byte first, from 13 times its number less one on; a zero and then 0xffff behind the name; 64 is added to the number of the last part. |
| VfatNames.WriteVfat | vfat.c:288-340 | One entry for every 13 units, last part first, each with its number, the mark on the last, and the checksum of the short name; at most 20. |
| VfatNames.VfatState.ParseVses | vfat.c:388-454 | An entry with another checksum begins a new name; otherwise its number is noted and its part put in place. |
| VfatNames.VfatState.CheckVfat | vfat.c:263-286 | The name counts exactly if the last entry was seen, the checksum is that of the short name, and no number is missing. |
| VfatNames.VfatState.ReadBack | vfat.c:263-286 | Entries of a name in any order, with repetitions, bring it back if and only if none is missing. |
| VfatNames.WriteThenRead | vfat.c:288-454 | A written name, read from its entries in any order, comes back if and only if no entry is missing. |
| AutoRename.FmtNum | vfat.c:68-74 | Prefix and zero-padded digits fill the field and nothing else. |
| AutoRename.ReplaceIllegals | vfat.c:64-95 | The characters ;+=[]',"*\<>/?: and the vertical bar become underscores, and then the tail is not counted up. |
| AutoRename.ScanBase | vfat.c:97-112 | The scan finds the end of the base and its numeric tail. |
| AutoRename.TailSize | vfat.c:97-112 | The number found is smaller than ten to the power of its digits. |
| AutoRename.AutorenameShort | vfat.c:77-157 | Only the eight base characters change, but for illegal ones; what becomes of the cleaned base is a function of it, of whether the tail is counted up, and of whether numeric tails are on. |
| AutoRename.NotCounted | vfat.c:77-157 | Without counting a base with a tail up to 999999 stays as it is; one without a tail gets the tail 1, or stays too if numeric tails are off. |
| AutoRename.TailIsField | vfat.c:68-112 | The characters of a tail are its number written in as many digits, so that scanning and formatting undo each other. |
| AutoRename.TailIsCountedUp | vfat.c:124-145 | A tail below 999999 goes up by one, with another digit when needed, in place of a letter if there is no room. |
| AutoRename.AnyTailIsCountedUp | vfat.c:97-145 | Any numeric tail below 999999, with leading zeros or not, goes up by one and the stem stays but for at most one letter, if and only if it does not run into characters behind the base. |
| AutoRename.SpacedLabelLosesTail | vfat.c:97-145 | The base A~9 BCDE runs into the characters behind it: it becomes A~10BCDE, which has no tail. |
| AutoRename.TailStartsAgain | vfat.c:126-132 | After 999999 the tail is 1 again. |
| AutoRename.AnyTailStartsAgain | vfat.c:126-132 | A tail of 999999 or more gives way to the tail 1 in the last two characters of the base. |
| AutoRename.FreshTail | vfat.c:113-122 | A name without a tail gets the tail 1. |
| AutoRename.RenamedTail | vfat.c:77-157 | The n-th renaming of a fresh name has the tail n, for n up to 999999. |
| AutoRename.RenamedSpelled | vfat.c:77-157 | The first renaming of a name of six characters or more puts ~1 behind its first six characters, the twelfth ~12 behind its first five. |
| AutoRename.RenamingsDiffer | vfat.c:77-157 | Renaming a fresh name again and again gives 999999 different names. |
| FatLen.WrappedLengthIsExact | mformat.c:267-313 | In wrapping 32-bit arithmetic, with the subtraction and its correction, the length is the exact ceiling. |
| FatLen.ReducedIsExact | mformat.c:291-313 | Subtracting the divisor once undoes an overflow of the numerator, and adding one makes up for it. |
| FatLen.LengthHolds | mformat.c:229-323 | A table of the computed length has an entry for every cluster that is left. |
| FatLen.LengthNearlyLeast | mformat.c:229-323 | No length that works is more than one sector shorter. |
| FatLen.Geometry.ExactNearlyLeast | mformat.c:229-315 | In terms of the fields: a length that works for as many clusters as the rest allows is at most one sector shorter. |
| FatLen.Geometry.HoldsIsInside | mformat.c:320-323 | A length holds n clusters if and only if the last of their entries, as the codec packs it, lies inside a table of that length. |
| FatLen.CeilingUnique | mformat.c:313 | There is only one exact length. |
| FatLen.LengthShrinks | mformat.c:267-313 | Doubling the cluster size never needs a longer table. |
| FatLen.Geometry.LeavesAtHalf | mformat.c:267-313 | If every exact length leaves room for a number of clusters at the limit of the width, so does every exact length with clusters of half the size: too many at a size means too many at each smaller one. |
| FatLen.LengthLeavesRoom | mformat.c:267-313 | The computed length leaves room for m clusters, if there are sectors for them and little more than their entries take. |
| FatLen.Geometry.WrappedIsExact | mformat.c:267-313 | The whole computation, for all field values of their types, gives the exact length without overflow. |
| FatLen.Geometry.OddSectorIsSpare | mformat.c:253-258 | Dropping an odd sector costs no cluster. |
| FormatParams.Params.CalcNumClus | init.c:336-351 | The clusters fill the disk but for less than a cluster; failure means there is no sector left. |
| FormatParams.Params.CalcFatLen | mformat.c:229-315 | The exact length, or the reason why there is none. |
| FormatParams.Params.ClustersFitIntoFat | mformat.c:320-323 | Whether the last entry lies inside the table. |
| FormatParams.Params.Pad | mformat.c:507-536 | Padding takes up all the sectors it is meant to if and only if `PaddingReaches` holds; it never shrinks table or directory and takes hardly more than it is meant to. |
| FormatParams.Params.GrowTables | mformat.c:520-532 | The tables grow by the rest, rounded up; the directory keeps its growth only if there was nothing to round. |
| FormatParams.PaddingFallsShort | mformat.c:413-540 | With 4144 sectors, two tables and clusters of one sector, 12-bit entries give too many clusters, 16-bit entries too few, and padding ends with too many again. |
| FormatParams.OtherPadding | mformat.c:507-540 | A longer directory and one more sector in each table would have been a fit. |
| FormatParams.Params.PaddedRound | mformat.c:455-540 | With a computed length, padding ends in a fit exactly if it could use up the excess sectors, and never leaves too few clusters. |
| FormatParams.Params.TryClusterSize | mformat.c:413-548 | Each result is justified by the counted clusters and the limits of the width; a fit has an entry for every cluster; with a computed length and without padding the length is the exact one. |
| FormatParams.Params.NeverBothWays | mformat.c:413-548 | For a fixed width, where a cluster size gives too many clusters its double does not give too few. |
| FormatParams.Params.NothingFixed | mformat.c:413-548 | Where nothing is fixed: 32-bit entries, chosen after 16-bit ones gave too many clusters, always fit; 16-bit ones never give too few; there is no room only on a small disk. |
| FormatParams.Params.React | mformat.c:697-776 | The search goes on with a smaller phase, half the size or twice the size; 12-bit entries are given up exactly at clusters of 8 sectors and 16-bit ones at 64, or where the size is fixed; once padding has begun the width is never raised; it gives up only if nothing is left to try. |
| FormatParams.Params.Consider | mformat.c:644-776 | A round either goes on, or stops with counted clusters, or refuses for a stated reason; where nothing is fixed it never begins to pad, and refuses only a small disk. |
| FormatParams.Params.CheckFsParamsAndSetFat | mformat.c:329-359 | The assertions hold if and only if every cluster has its entry, the directory suits the width, and the bound for the size of the disk fits into 32 bits; the width is not changed. |
| FormatParams.Params.Finish | mformat.c:329-380 | What the search found is accepted if and only if every cluster has its entry, the bound fits into 32 bits, and a 32-bit file system has three reserved sectors. |
| FormatParams.LargestDiskAborts | mformat.c:347-349 | On a disk of 0xffffffff sectors the attempt with 32-bit entries succeeds and the assertion behind it fails, its bound being cut to 33. |
| FormatParams.Params.CalcFsParameters | mformat.c:559-792 | The search ends for every disk size and all fixed parameters; success means a consistent set of parameters; every refusal is justified by the last attempt and by nothing being left to try; a failed assertion means more than 65535 sectors to pad, a bound that does not fit into 32 bits, or a 32-bit file system with fewer than three reserved sectors or too short a table given by the user; what the user fixed is kept. Where nothing is fixed the search succeeds for every disk of 1260 sectors or more, but for those within 127 sectors of the greatest size where the bound does not fit; the width is then the narrowest for which clusters of 8 (12 bits) or 64 sectors (16 bits) are few enough, and the cluster size the smallest for it (or 2 on a small disk with two heads), or the one prescribed for 32 bits. |
| BootSector.ParseFsParams | init.c:404-486 | What it answers is what the boot sector stands for, field by field at the byte positions of the format; it answers nothing only for a bad sector size or too few sectors. |
| BootSector.ReadFloppy | init.c:404-486 | The boot sector of a 1.44 MB floppy, from literal bytes: twelve bits, two tables of 9 sectors, 14 sectors of directory, 2847 clusters. |
| BootSector.ReadMediumDisk | init.c:404-486 | A boot sector of a 16-bit file system, from literal bytes, gives all of its parameters. |
| BootSector.ReadLargeDisk | init.c:404-486 | A boot sector of a 32-bit file system, from literal bytes, gives all of its parameters. |
| BootSector.StoreLengths | mformat.c:1347-1375 | The table length is stored where it belongs for the width, and the other fields of that part do not disturb it. |
| BootSector.StoreGeometry | mformat.c:63-71 | The number of sectors is read back from the 16-bit or the 32-bit field. |
| BootSector.StoreParameters | mformat.c:1306-1412 | All stores together leave every field as it was meant, up to the casts, little-endian at the byte positions of the format. |
| BootSector.DirectoryLength | mformat.c:211-216 | Entries converted to sectors give the directory length back if and only if none were lost. |
| BootSector.ReadsBack | init.c:451-483 | Reading gives back width, lengths, first cluster sector and number of clusters if and only if the 16-bit fields are wide enough. |
| BootSector.FormatThenRead | mformat.c:1347-1412 | The round trip through the bytes, for every consistent parameter set. |
| BootSector.LongDirectoryIsLost | mformat.c:1347-1412 | A consistent set of parameters with 65536 root directory entries is not read back. |
| Primes.ProbeVisitsEverySlot | hash.c:107-130 | With a prime size, stepping by any amount visits every slot. |
| HashTable.StoreOnPath | hash.c:107-130 | An element stored at the end of its own walk leaves every element reachable over slots that were once used. |
| HashTable.HashTable.AllocHt | hash.c:42-74 | The table is replaced by an empty one, more than twice as large as the request or the largest there is; it fails exactly if no size is greater than the request. |
| HashTable.HashTable.MtHashAdd | hash.c:107-130 | The contents grow by the element, the hint finds it, and every element stays reachable; the walk ends. |
| HashTable.HashTable.Rehash | hash.c:132-149 | The contents are the same and no tombstone is left; more than one slot is unallocated unless the table is the largest; it fails only at the greatest size. |
| HashTable.HashTable.HashAdd | hash.c:151-158 | The contents grow by the element, and a slot stays unallocated unless the greatest table is full of elements; it fails exactly when the greatest table is full of used or deleted slots. |
| HashTable.HashTable.Walk | hash.c:162-181 | The walk stops at a match, at an unallocated slot or after meeting each slot once, and notes a tombstone on its way. |
| HashTable.HashTable.Relocation | hash.c:182-192 | Moving an element into a tombstone met earlier on its walk loses and doubles nothing. |
| HashTable.HashTable.MtHashLookup | hash.c:162-194 | An equal element is found if and only if one is stored; the contents do not change. |
| HashTable.HashTable.HashLookup | hash.c:197-201 | The same, by the comparison function. |
| HashTable.HashTable.HashRemove | hash.c:204-221 | With any hint, stale or not, one occurrence of the element is removed if and only if it is stored. |

## Left out

* Devices, transports, locking, privileges, character sets, prompts and command front ends: the
  stream below is an array of bytes that may fail and may transfer less than it was asked for.
* `batchmode`, date stamps, boot code, 2m and XDF fields, info sector, media checks and the table
  of old DOS formats, none of which decides where data goes in the cases modelled.
* `root_map`, streams other than regular files, and the table of open files that uses the hash
  table.
* The interactive clash dialogue and the writing of directory entries other than long names.
* HashTable.HashTable.HashAdd: takes as a hypothesis that the sizes listed in hash.c:34-39 are prime; so do
  `HashTable.HashTable.Rehash` and `HashTable.HashTable.AllocHt`.
* FileMap.File.NormalMap: a false start of the walk is modelled for reading, where the entry of
  cluster 0 is an end mark; reads start inside the file. For writing, the source would put new
  clusters behind the entry of cluster 0.
* FileMap.File.WriteFile: a first access behind 65535 clusters or more is not modelled, as said for
  `FileMap.File.NormalMap`; the stream below takes any number of bytes, and `FileStack.dfy` has the
  buffer, which does.
* FileStack.BufferedFile.Write: the same first access is not modelled.
* Buffer.Buffer.BufPRead: transfers of whole sectors below end on sector borders, which the source
  takes for granted.
* FatTable.Fs.FsPreallocateClusters: does not deduct earlier reservations, because the source does
  not.
* FatTable.Fs.FatFree: chains that are damaged or shared between files are not modelled.
* FatStack.FileSystem.Lookup: the copies that may answer must have been alike, and one must be
  readable; `FatCache.dfy` has the other cases.
* FatCache.FatCache.LoadSector: a failed `malloc` is not modelled.
* FatCache.FatCache.FatWrite: the info sector is not modelled, and a failed write, which ends the
  program in the source, promises nothing.
* DirCache.DirCache.FreeDirCacheRange: the place where an end mark would have to be rewritten is
  not specified; endMarkPos rewriting on disk is not modelled.
* DirCache.DirCache.AllocDirCacheEntry: where the range does not begin where an entry does, or
  clearing it ends early, or it begins inside the hashed prefix, only ownership and the new entry are
  described; `DirCache.DirCache.AddUsedEntry` and `DirCache.DirCache.AddEndEntry` do the same.
* DirCache.DirCache.AddFreeEndEntry: the range must begin where an entry does and its clearing must
  not end early, as for all callers in the source (`InsertLookup.Directory.FrontierIsClear`,
  `Rename.OneEntryFits`); otherwise the source would merge with an entry it has given up.
* Rename.RenameEntry: reading the old entry back while it is wiped does not fail; names of the new
  entry are given.
* InsertLookup.Directory.LookupForInsert: what a directory holds is given slot by slot; `VfatNames.dfy`
  has the parsing of long names. Case folding is one function for hash and comparison.
* VfatNames.VfatState.ParseVses: entries with number 0, for which the source shifts by a negative
  amount, are not modelled; the status bits are a set.
* AutoRename.AutorenameShort: `autorename_long` is not modelled.
* FormatParams.Params.CalcFsParameters: for which disks the search succeeds is characterised only
  where the user has fixed nothing but the sector size, the number of tables and of heads.
* Remap.Remap.ProcessMap: numbers in the map are read by a parameter, and are not negative.
* Out of memory and most calls of `exit`.
