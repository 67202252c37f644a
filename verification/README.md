# A verified model of the XOS kernel's storage and memory code

XOS is a small RISC-V kernel. This project models its sequential core in Dafny and proves what that
core is for: files are byte sequences, page tables are finite maps, allocators never hand out the same
thing twice, a cache cannot be told from the disk behind it.

Five parts of the kernel are modelled, each in the form its source has: classes and in-place loops
where the source updates things, functions where it computes.

* **FAT32** (`src/fs_fat32.c`). `FatSectors` lays FAT entries and clusters out on 512-byte sectors and
  keeps, beside the disk, the abstract volume the sectors mean. `FatChains` is about cluster chains and
  their bytes. `FatFiles` has the in-memory entry with its cached cursor and `reloc_clus`, `eread`,
  `ewrite`, `etrunc`, and `FatFull` what `reloc_clus` does when no cluster is left. `FatRuns` runs any series
  of writes, truncations and reads on any set of files, and counts their clusters.
  `FatRecords` has the 32-byte directory records, `FatScan` what a scan finds in any sequence of them, and
  `FatDirectory` their printer (`emake`), parser (`enext`) and in-place edits (`eupdate`, `eremove`).
  `FatEdits` says exactly when making, updating and removing files does to the listing of a directory what it
  should, `FatInputs` has directories on which it does and on which it does not, and `FatListing` the lookup
  and whole runs. `FatWriteBack` ties an open file to its record, `FatChecksum` is about the sum in the long
  records, and `FatFormat` says byte by byte what is on the disk.
* **Physical memory** (`src/max_heap.c`, `src/mm_frame_allocator.c`, `src/mm_page_table.c`,
  `src/mm_memoryset.c`). `MaxHeap`, `FrameAllocator` and `FrameRuns` hand frames out. `Physical` is
  memory as pages of bytes by frame number, so tables and data share it. `PageEntries`, `PageWords`,
  `TableTree`, `PageTable` and `PageRuns` are Sv39 tables (section 4.4 of the RISC-V Privileged
  Architecture, version 1.11) kept in those pages, and `Sv39` the hardware's walk of them;
  `AddressPages`, `MemorySet` and `Fork` are address spaces, and `UserCopy` the copies to and from user
  addresses.
* **The kernel heap** (`src/bitmap_buddy.c`). `BuddyTree` says what a tree of blocks means, `BuddyNodes`
  how the implicit tree stores it, `BuddyArith` the powers of two, `Buddy` the packed bytes and bits and
  the code on them, `BuddyRuns` whole runs, `BuddyHonest` what every stored value says.
* **Buffer cache and pipe** (`src/fs_buf.c`, `src/fs_pipe.c`). `BufferRing`, `BufferCache` and
  `CacheRuns` cut `bread`, `bwrite` and `brelse` into the steps between which threads may be switched.
  `Pipe` does the same for the stretches between two sleeps.
* **Strings** (`src/string.c`). `Strings` proves the word-at-a-time routines against bytes.

Conventions. A part of a predicate may be kept behind a key, `forall k: Key :: Open(k) ==> part`; a
proof that needs the part writes `assert Open(Key)`. The part is always implied by the predicate, it is
only kept out of other proofs. Where the source panics or an assertion of its own fails, the model
returns a value that says so (`false`, `None`, `NoFrame`, `Refused`, `HEAD`). `nat` stands for an
unsigned number, and widths are written out where a sum can wrap: file offsets, user addresses, pipe
counters, page table entries, rounded sizes.

## What the code does that one would not expect

* `alloc_clus` returns 1 when no entry is free, it searches the whole table, past the last cluster, and
  nobody looks at the result. A file that is to grow further than its clusters and the free ones reach
  has no chain any more afterwards (`FatFull.RelocFull`), so the room that `RelocClus` asks for is exactly what
  the code needs. The first cluster of an empty file leads to no chain either (`FatFull.StartFull`).
* `emake` writes the "." and ".." records whenever the offset is 0 or 32, whatever the entry's name is. A
  root directory has no dot entries, so the first file made in an empty one is lost and a "." is listed in
  its place (`FatInputs.LostInRoot`), and so is one made after the only file has been removed
  (`FatInputs.LostAfterRemove`). A new file is listed as itself if and only if it goes behind the first two
  records (`FatEdits.MakeIff`).
* `eupdate` and `eremove` take the number of long records from the first byte of an entry. An entry that is
  a short record alone, which `enext` accepts and other systems write, has a character of its name there.
  Only a name that starts with "@" counts 0 (`FatInputs.AtSign`). With a record "A" in front of a file,
  `eremove` on the first takes a record of the file too, so that the file is listed under its short name
  (`FatInputs.RemoveTakesNext`), and `eupdate` leaves "A" as it was and writes over the name of the file
  (`FatInputs.UpdateTakesNext`). `FatEdits.UpdateIff` and `FatEdits.RemoveIff` are the exact conditions in any
  directory, `FatInputs.NoUpdate` and `FatInputs.AloneRemoved` what they come to for such an entry.
* Where that count leads past the end of the directory, `reloc_clus` returns -1, the sum in the range test of
  `rw_clus` wraps, and a sector 0x7FFFFF behind the directory's first one is written
  (`FatSectors.FatVolume.WriteStray`, `FatDirectory.Eupdate`, `FatDirectory.Eremove`).
* `enext` finds a file that has lost its first long records at each of the records that are left, under its
  short name, so that it is listed as often (`FatScan.HeadAt`).
* `snstr` leaves one position of its chunk unwritten when a NUL ends the copy early; the parser relies
  on the clearing at the start of `enext`. `Snstr` says which position.
* The comment on `dirlookup` promises the offset of empty slots that fit. The code assigns `type` from
  the comparison, so that branch is never taken and a new entry always goes behind the last one. For the
  same reason the empty name, which `formatname` may leave, is found at the first empty slot in front of an
  entry; a miss is answered exactly if there is none (`FatListing.EmptySeen`).
* `frame_dealloc` has no lower bound check: its test lets through the live frames and everything below
  the first frame (`FrameAllocator.GuardExact`). Such a number is then counted as a free frame and handed
  out (`FrameAllocator.Frames.Dealloc`).
* `ms_free` gives the page tables back before it walks them to unbind the areas. Nothing is allocated in
  between, so every frame is still given back once (`MemorySet.MemorySet.Free`).
* `copyout2` and `copyinstr2` add address and length in 64 bits, so a range that goes on at 0 behind the last
  address is judged by its two ends alone, and `copyout2` never turns away one that starts at the first mmap
  address or above (`UserCopy.CopyOut`, `UserCopy.CopyInStr`).
* The merge test of `buddy_free` adds two logarithms. `BuddyRuns.MergeExact` says for all values when
  the result is right: never when both halves are whole again, and not when the logarithms happen to
  add up.
* Nodes below a taken block keep their old values. `BuddyHonest.NodeHonest` proves that these are
  exactly the nodes whose value is wrong.
* `buddy_alloc` wraps a request above 2^31 bytes to 0 (`BuddyArith.RoundedWraps`).
* `piperead` takes a byte out of the ring before it knows that it can be delivered, so a failing copy
  loses one byte (`Pipe.Pipe.Read`).
* `strncpy` returns the address behind the copied bytes, not the start of the destination.

## Model

| member | source | states |
|---|---|---|
| FatSectors.EntryWritten | src/fs_fat32.c:170-222 | storing one little-endian word at the computed sector and offset changes exactly that FAT entry of the abstract volume and no cluster byte |
| FatSectors.SectorWritten | src/fs_fat32.c:278-311 | copying into sector k of a cluster is a copy into that cluster's bytes at 512 k and leaves every other cluster and the FAT alone |
| FatSectors.ClustersApart | src/fs_fat32.c:157-160 | two different clusters share no sector |
| FatSectors.SectorsInOrder | src/fs_fat32.c:157-160 | the sectors behind the tables are the bytes of the clusters in order, from cluster 2 on |
| FatSectors.EntriesInOrder | src/fs_fat32.c:170-187 | the first table is its entries in order, four bytes each, low byte first |
| FatSectors.FatVolume.ReadFat | src/fs_fat32.c:189-203 | the entry of the abstract FAT, an end mark as itself, 0 past the last cluster |
| FatSectors.FatVolume.WriteFat | src/fs_fat32.c:210-222 | one entry of the abstract FAT changes, or -1 and nothing does |
| FatSectors.FatVolume.ZeroClus | src/fs_fat32.c:225-235 | exactly one cluster becomes all zero; past the last cluster nothing of the volume changes |
| FatSectors.FatVolume.AllocClus | src/fs_fat32.c:238-261 | takes the least free entry of the table, a cluster or past the last one, sets it to 0x0FFFFFFF and clears its cluster; 1 and no change when the table is full |
| FatSectors.FatVolume.WriteClus | src/fs_fat32.c:278-311 | the sector by sector loop is one copy into the cluster's bytes |
| FatSectors.FatVolume.ReadClus | src/fs_fat32.c:278-311 | the sector by sector loop returns that slice of the cluster's bytes |
| FatSectors.FatVolume.WriteStray | src/fs_fat32.c:278-311 | at offset -1 the range test passes and the last byte of one sector 0x7FFFFF behind the cluster and the front of the next are written; nothing of the volume outside those two sectors changes |
| FatChains.ChainAcyclic | src/fs_fat32.c:692-702 | a chain that reaches an end mark meets no cluster twice |
| FatChains.ChainUnique | src/fs_fat32.c:320-350 | the first cluster determines the chain |
| FatChains.FlatSplice | src/fs_fat32.c:382-412 | a copy into one cluster of a chain is a copy into the chain's bytes |
| FatChains.GrownKeepsOthers | src/fs_fat32.c:238-261 | growth of one chain keeps every other chain and its bytes and stays disjoint from it |
| FatChains.FreedKeepsOthers | src/fs_fat32.c:692-702 | truncating one chain keeps every other chain and its bytes |
| FatChains.FreedSpace | src/fs_fat32.c:692-702 | truncation frees exactly the clusters of the chain |
| FatFiles.RelocClus | src/fs_fat32.c:320-350 | the cursor ends on cluster off / B of the chain and off % B is returned; without growth a short chain gives -1 and the cursor back at its start; with growth the chain gets exactly max(old, off / B + 1) clusters, the new ones clear |
| FatFull.RelocFull | src/fs_fat32.c:238-350 | growth further than the chain and the free clusters reach leaves the file without any chain, and is reported as done |
| FatFull.StartFull | src/fs_fat32.c:389-393 | an empty file that is written on a full volume gets a first cluster that leads to no chain |
| FatFull.NoChain | src/fs_fat32.c:320-350 | a file whose entries lead to a number that is no cluster has no chain |
| FatFiles.Eread | src/fs_fat32.c:354-379 | returns exactly the requested slice of the contents, cut at the end, nothing for directories and refused ranges; the disk is unchanged |
| FatFiles.Ewrite | src/fs_fat32.c:382-412 | contents become old[..off] + data + old[off + n..]; refused offsets, ranges and read-only files give -1 and change nothing; only clusters that were free are taken and only this chain is written; the entry is dirty afterwards exactly if it was or its first cluster or size has changed |
| FatFiles.Etrunc | src/fs_fat32.c:692-702 | the file is empty and exactly its clusters are free again |
| FatRuns.Run | src/fs_fat32.c:278-412 | any series of writes, truncations and reads on any set of files in which every write fits at its step does to the files what it does to plain byte sequences, every read returns what it returns there, chains stay well formed and pairwise disjoint, and the clusters of each file and the free ones are as counted |
| FatRuns.FitsIsRoom | src/fs_fat32.c:382-412 | the count of clusters says that a write fits exactly when the volume has room for it |
| FatRuns.CountExact | src/fs_fat32.c:320-350 | after a write a file has as many clusters as it had, or as its end needs, and at least one |
| FatWriteBack.Session | src/fs_fat32.c:382-702 | over any series of writes, truncations and updates through one open file, its entry agrees with its directory record whenever it is not dirty, its bytes are what the series makes of a byte sequence, and no other record changes |
| FatWriteBack.SaveAndLoad | src/fs_fat32.c:382-878 | after any such series and a last `eupdate`, whoever finds the file in the directory with `enext` gets its first cluster and size and reads what the series made of its bytes |
| FatRecords.FillLong | src/fs_fat32.c:562-583 | one long record holds its 13 characters, terminator and padding in the three fields |
| FatRecords.GenerateShortname | src/fs_fat32.c:478-517 | for every name exactly its short name: the stem up to eight characters and the extension behind the last dot up to three, capitals for small letters, underscores for six characters, dots and spaces left out, padded with spaces |
| FatRecords.CalChecksum | src/fs_fat32.c:519-526 | the loop computes the sum of the eleven bytes, one step for each from left to right |
| FatChecksum.StepBits | src/fs_fat32.c:523-523 | one step rotates the eight bits of the sum right by one and adds the character, in eight bits |
| FatChecksum.SumsApart | src/fs_fat32.c:519-526 | names that differ in one character have different sums |
| FatChecksum.SumsTie | src/fs_fat32.c:534-597 | every long record of a file carries the sum of its short name |
| FatFormat.FileIsFormat | src/fs_fat32.c:534-597 | the records of a file at their literal places: order and mark, thirteen characters, attribute 0x0F and sum in the long ones, short name, attribute, cluster and size in the short one, zeros elsewhere |
| FatFormat.DotIsFormat | src/fs_fat32.c:543-553 | the dot records likewise |
| FatFormat.ShortNameVector | src/fs_fat32.c:478-517 | the short name of "a.txt" is "A       TXT" |
| FatFormat.AttributesAreFormat | src/fs_fat32.c:384-387 | a write is refused exactly past the end, past 32 bits, or with bit 0 of the attribute set; bit 4 makes a directory |
| FatFormat.MarksAreFormat | src/fs_fat32.c:848-861 | a record is empty or the end exactly with 0xE5 or 0 in its first byte, and long exactly with attribute 0x0F |
| FatFormat.EndsAreFormat | src/fs_fat32.c:320-350 | an entry ends a chain for `reloc_clus` from 0x0FFFFFF8 on, and below 0x80000000, as it is kept in a signed number |
| FatFormat.ChainIsFormat | src/fs_fat32.c:320-350 | the entries of a chain are the numbers of its clusters, and the last one is from 0x0FFFFFF8 to 0x0FFFFFFF |
| FatRecords.InfoRoundTrip | src/fs_fat32.c:663-665 | a stored first cluster and size read back, and no other byte of the record changes, the time and date between them among those |
| FatRecords.Snstr | src/string.c:245-252 | low bytes up to the first zero character, then zeros, except that the last position of a chunk ended early stays as it was |
| FatRecords.ReadLongName | src/fs_fat32.c:773-782 | a long record's characters go to their place in the name buffer, and nothing else of it changes |
| FatRecords.ReadShortName | src/fs_fat32.c:783-797 | for every short record the stem up to a space, then a dot and the extension up to a space if there is one |
| FatScan.RunOf | src/fs_fat32.c:861-867 | a long record of order n is followed by n - 1 more in order and then by a short one |
| FatScan.ShowsText | src/fs_fat32.c:773-782 | each of the long records holds its part of the name that they make together |
| FatScan.SoundTidy | src/fs_fat32.c:837-878 | an entry ends within the records, and one that has lost its first records is found at each of the others |
| FatDirectory.Emake | src/fs_fat32.c:534-597 | from the offset on stand exactly the long records, last part first, with checksum and last mark, and the short one with the name's short name; at offsets 0 and 32 a dot record; no other record changes, and the directory grows by no more clusters, clear ones, than those records reach |
| FatDirectory.Enext | src/fs_fat32.c:837-878 | from any record returns the entry there, with all its long records, with some or without, with name, attribute, first cluster, size and record count, or the length of the run of empty slots with the name cleared, or -1 behind the last record in use |
| FatDirectory.Eupdate | src/fs_fat32.c:653-668 | the record as far behind the first one as that says gets first cluster and size, and no other byte of the directory changes; past its end the same bytes are written in two stray sectors and nowhere else; nothing changes if the entry is clean or not valid |
| FatDirectory.Eremove | src/fs_fat32.c:673-688 | exactly the first record and as many behind it as it says are marked empty, cut at the end of the directory, and then one byte of a stray sector is too |
| FatEdits.ListsIff | src/fs_fat32.c:534-688 | in any directory an operation lists what it makes of a plain list of entries if and only if `Right` says so, a condition on the records before it |
| FatEdits.MakeIff | src/fs_fat32.c:534-639 | for a new file: it goes behind the first two records |
| FatEdits.UpdateIff | src/fs_fat32.c:653-668 | for an update: the first byte of the entry counts its other records, or the entry has the values already and the record they are stored in does not show it |
| FatEdits.HiddenIff | src/fs_fat32.c:653-668 | a first cluster and a size stored in any record leave the listing as it was if and only if the record is empty, or a short one that has them, or a long one in which the three characters under them stay or stand behind the name, or its file has lost its first record |
| FatEdits.RemoveIff | src/fs_fat32.c:673-688 | for a removal: the entries taken away with the named one are those found again in what is left of them |
| FatEdits.LostNothing | src/fs_fat32.c:673-688 | no entry goes with another if and only if the counted records behind it are not in use |
| FatEdits.FoundInFile | src/fs_fat32.c:673-688 | one can be found again only if the last record marked is a long one |
| FatEdits.MadeList | src/fs_fat32.c:534-597 | the listing behind a new entry is the old one and that entry, or the dot entry written for it |
| FatEdits.AfterSound | src/fs_fat32.c:534-688 | every operation leaves records that a scan reads to their end |
| FatEdits.ListsAll | src/fs_fat32.c:534-688 | so does every series, and it lists what it makes of a plain list if each operation is right |
| FatInputs.LostInRoot | src/fs_fat32.c:543-553 | a file made in a directory without entries is lost, and a "." with its cluster is listed |
| FatInputs.LostAfterRemove | src/fs_fat32.c:534-688 | so is a file made after the only one has been removed |
| FatInputs.ShortAlone | src/fs_fat32.c:656-659 | the first byte of a short record alone counts its other records if and only if it is "@" |
| FatInputs.AtSign | src/fs_fat32.c:653-688 | every update and removal of such a name is right |
| FatInputs.NoUpdate | src/fs_fat32.c:653-668 | every other update of a short record alone with another first cluster or size is wrong |
| FatInputs.AloneRemoved | src/fs_fat32.c:673-688 | a removal of one is right if the counted records behind it are not in use, and otherwise wrong unless the last of them is a long one |
| FatInputs.RemoveTakesNext | src/fs_fat32.c:673-688 | removing a record "A" in front of a file leaves the file listed under its short name, once for each record left, which is right only if that is one record and the name is its own short name |
| FatInputs.UpdateTakesNext | src/fs_fat32.c:653-668 | updating it leaves it as it was and can only change the name of the file |
| FatInputs.DottedAllRight | src/fs_fat32.c:534-688 | in a directory that starts with its two dot entries and whose other entries have all their long records every series of operations is right |
| FatListing.ScanDir | src/fs_fat32.c:912-927 | repeated enext lists exactly the entries of the directory in order and stops behind the last |
| FatListing.Dirlookup | src/fs_fat32.c:888-933 | the two dot names get the directory or its parent without a scan; for any other name the first record at which `enext` finds it, or a miss and the offset behind the last record in use |
| FatListing.SeenIsThere | src/fs_fat32.c:912-920 | for a name that is not empty that is the first entry of the name in the listing, and a miss means that there is none |
| FatListing.EmptySeen | src/fs_fat32.c:912-920 | the empty name is missed if and only if no slot in front of the last entry is empty |
| FatListing.MakeEntry | src/fs_fat32.c:602-639 | a name that is there changes nothing; otherwise exactly the new records stand behind the old ones, the clusters are as counted, and the listing is right if and only if it goes behind the first two records |
| FatListing.UpdateEntry | src/fs_fat32.c:653-668 | in any directory the records change as said, and the listing is the one with that first cluster and size if and only if `Right` says so |
| FatListing.RemoveEntry | src/fs_fat32.c:673-688 | in any directory the records change as said, and exactly the named entry leaves the listing if and only if `Right` says so |
| FatListing.RunDir | src/fs_fat32.c:534-688 | in any directory a series of makes, updates and removals leaves the records it makes of the records, and the listing it leaves in a plain list of entries if each operation is right |
| FatListing.MakeAndList | src/fs_fat32.c:534-878 | a directory made from nothing by any such series is scanned back as exactly that list behind its two dot entries |
| MaxHeap.Heap.SiftUp | src/max_heap.c:65-75 | a heap with one element too large becomes a heap of the same elements |
| MaxHeap.Heap.SiftDown | src/max_heap.c:76-96 | a heap with one element too small, at any position, becomes a heap of the same elements |
| MaxHeap.Heap.Insert | src/max_heap.c:38-47 | one element more and a heap again, or refused exactly when full |
| MaxHeap.Heap.RemoveMax | src/max_heap.c:48-63 | the largest element is removed and stays readable behind the end; refused exactly when empty |
| MaxHeap.RootLargest | src/max_heap.c:97-100 | the root of a heap is its largest element |
| MaxHeap.Heap.Top | src/max_heap.c:97-100 | the largest element of a heap that has one |
| MaxHeap.Heap.IsSome | src/max_heap.c:108-116 | true exactly when the number is in the heap |
| FrameAllocator.Frames.Alloc | src/mm_frame_allocator.c:23-50 | the last recycled frame, or the one at the mark if there is none: a frame that was not live, and none above all live ones while one below is free; the panic exactly when all are live |
| FrameAllocator.Frames.Dealloc | src/mm_frame_allocator.c:52-65 | of the numbers from the first frame on it accepts exactly the live frames, and afterwards the mark is the least with nothing live from it on; a number below the first frame is accepted, counted as free and next to be handed out or among the recycled, and the allocator is no longer valid |
| FrameAllocator.Frames.Reclaim | src/mm_frame_allocator.c:59-63 | the loop stops at the least mark even when it reads the top of a heap it has emptied |
| FrameAllocator.Frames.RemainSize | src/mm_frame_allocator.c:67-70 | the exact number of free frames |
| FrameAllocator.GuardExact | src/mm_frame_allocator.c:55-56 | the test lets through exactly the live frames and every number below the first frame |
| FrameRuns.Run | src/mm_frame_allocator.c:23-70 | over any series of calls every answer is right for the frames live at that time, and the count at the end is exact |
| FrameRuns.NotTwice | src/mm_frame_allocator.c:23-50 | no frame is handed out twice unless it was given back in between |
| Physical.WordStored | src/mm_page_table.c:20-23 | a stored 64-bit word reads back and leaves the other words of the page alone |
| PageEntries.PteRoundTrip | src/mm_page_table.c:30-49 | any 64-bit page number comes back with its low 44 bits and the flags as they were |
| PageWords.ShiftsAndMasks | src/mm_page_table.c:8-49 | the shifts and masks on 64-bit words are the entry, page number, flags and indexes of the numbers the words stand for |
| PageEntries.SameIndexes | src/mm_page_table.c:8-16 | two page numbers share their three indexes exactly when their low 27 bits agree |
| PageEntries.VpnIndexes | src/mm_page_table.c:8-16 | the loop yields the three indexes, highest first |
| TableTree.Grow | src/mm_page_table.c:142-149 | a new table under an empty entry leaves a tree of tables on distinct frames |
| TableTree.GrowEntries | src/mm_page_table.c:142-149 | a new table alters no translation |
| TableTree.PutEntry | src/mm_page_table.c:182-194 | writing one lowest entry keeps the tree and changes that entry only |
| Sv39.WalkIsMap | src/mm_page_table.c:126-181 | the walk of section 4.4, on bits of memory alone, ends at the lowest entry with the page number and flags of the finite map for every page bound so that an access can use it, and in a page fault for every other |
| Sv39.LinkBits | src/mm_page_table.c:142-149 | the entry above a table is valid and neither readable, writable nor executable, so it leads down, to that table |
| PageTable.Table.FindCreate | src/mm_page_table.c:126-155 | reaches the entry of a page, making missing tables on the way to it and no others, listing each once and altering no translation; without missing tables nothing changes |
| PageTable.Table.FindPte | src/mm_page_table.c:156-181 | the entry found decodes to what the finite map says; NULL only for pages that are not bound |
| PageTable.Table.Map | src/mm_page_table.c:182-188 | binds the low 27 bits to the page number and flags, refused exactly when bound; no other binding changes, the hardware finds the map, only missing tables on the way are made, memory outside the tables and newly taken frames is unchanged |
| PageTable.Table.Unmap | src/mm_page_table.c:189-194 | drops the binding, done exactly when there was one; no other binding changes, no table is made for it, and the hardware finds the map |
| PageTable.Table.UnmapBound | src/mm_page_table.c:189-194 | for a bound page the tables need not be live: they are only walked, and no other binding changes |
| PageTable.PtNew | src/mm_page_table.c:113-120 | an empty map in one zeroed frame that was not live, or the panic exactly when no frame is free |
| PageTable.Table.Free | src/mm_page_table.c:93-107 | gives every table frame back once, and the allocator accepts each |
| PageRuns.Run | src/mm_page_table.c:126-194 | any series of map and unmap translates as the finite map that the series builds, for the kernel and for the hardware, with every refusal as that map says and a panic only if no frame is left, and touches only its own and newly taken frames |
| MemorySet.VpmapRemove | src/mm_memoryset.c:49-66 | takes the first node for a page out of the list, if there is one |
| MemorySet.MemorySet.MapOne | src/mm_memoryset.c:69-91 | one page more is bound, for a framed area on a zeroed frame that was not live; every other live frame but the tables keeps its bytes |
| MemorySet.MemorySet.UnmapOne | src/mm_memoryset.c:93-105 | the page's frame is given back, its binding dropped, no table made, in tables that need not be live any more |
| MemorySet.MemorySet.MapArea | src/mm_memoryset.c:107-116 | every page of an area in turn, all on new zeroed frames if it is framed; refused only if a page is bound already or the area meets itself |
| MemorySet.MemorySet.UnmapArea | src/mm_memoryset.c:117-124 | every page of an area is unbound and its frame given back, with no new table and no refusal |
| MemorySet.MemorySet.Push | src/mm_memoryset.c:192-236 | all pages of an area are bound and the area appended; refused only if a page is bound already or the area meets itself |
| MemorySet.MemorySet.FreeAreas | src/mm_memoryset.c:165-176 | every data frame is given back once, no table is made or dropped, the pages are unbound, and the free count rises by the number of framed pages |
| MemorySet.MemorySet.Free | src/mm_memoryset.c:155-176 | every table frame and every data frame is given back exactly once, though the tables go first; the free count rises by both, the pages are unbound, and memory outside the tables is unchanged |
| Fork.NewUser | src/mm_memoryset.c:284-290 | an address space with the trampoline bound and nothing else, on frames that were not live; the hardware finds it at the last page number, readable and executable, not writable nor open to user mode |
| Fork.FromExistedUser | src/mm_memoryset.c:281-321 | the child has the parent's pages, permissions and bytes on frames disjoint from all live ones and from each other, the trampoline at the given frame as the hardware finds it, and no other binding; every frame that was live, the parent's tables and pages among them, is unchanged |
| UserCopy.CopyIn | src/mm_page_table.c:227-260 | the page-wise loop returns the bytes at the translated addresses one by one, across any page edges and the end of the address range |
| UserCopy.CopyOut | src/mm_page_table.c:261-295 | 0 exactly for a range that starts at 0x40000000 or above, or starts below the space's size and ends within it (after a wrap, if it wraps); then memory becomes what storing byte by byte at the translated addresses makes it, else -1 and no change; the page table stands |
| UserCopy.CopyInStr | src/mm_page_table.c:297-352 | 0 exactly when the range lies in the space and a NUL is among the first max bytes, with the string copied through it; pages are looked at only for such a range and only up to the NUL |
| UserCopy.AsHardware | src/mm_page_table.c:203-225 | the byte that a copy takes at a user address is the one that the user's own access finds there |
| UserCopy.WriteThenRead | src/mm_page_table.c:227-295 | what was copied out is copied in again, if no two addresses are one byte |
| BuddyArith.RoundedIs | src/bitmap_buddy.c:178-181 | every request up to 2^31 is rounded to 2^j bytes with 3 <= j <= 31 |
| BuddyArith.RoundedBits | src/bitmap_buddy.c:14-21 | rounding gives the least power of two that fits, at least 8 |
| BuddyArith.RoundedWraps | src/bitmap_buddy.c:14-21 | it gives 0 exactly for requests above 2^31 |
| BuddyArith.PowerOf | src/bitmap_buddy.c:34-44 | square and multiply in 64 bits is 2^b for all b below 64 |
| BuddyArith.LogOf | src/bitmap_buddy.c:23-33 | the loop finds the highest bit |
| BuddyArith.PowerTestExact | src/bitmap_buddy.c:10-10 | the and-test holds exactly for powers of two |
| BuddyTree.LiveSound | src/bitmap_buddy.c:212-220 | live blocks are aligned to their size, inside the heap and pairwise disjoint |
| BuddyTree.ValueGives | src/bitmap_buddy.c:199-206 | a node has a free aligned block of every size up to its value |
| BuddyTree.ValueBounds | src/bitmap_buddy.c:183-189 | and of no larger size |
| BuddyTree.LowestRight | src/bitmap_buddy.c:199-206 | a search that goes into a right half passes no free block of its size |
| BuddyNodes.MendNode | src/bitmap_buddy.c:225-252 | writing the larger value of the halves at their parent makes it say what the halves say |
| Buddy.BitStored | src/bitmap_buddy.c:47-73 | a stored bit reads back and the other nodes of its byte keep theirs |
| Buddy.BuddyNew | src/bitmap_buddy.c:114-163 | the loop and the memset make a tree in which everything is free; NULL exactly for sizes that are not powers of two |
| Buddy.BitmapBuddy.GetSize | src/bitmap_buddy.c:81-112 | decodes bytes, 16-byte bits and 8-byte bits to the node's value |
| Buddy.BitmapBuddy.Alloc | src/bitmap_buddy.c:165-256 | NULL exactly when no free aligned block of the rounded size exists; else the lowest such block becomes live, no other changes, and its bytes are zero |
| Buddy.BitmapBuddy.SearchUp | src/bitmap_buddy.c:276-289 | for a live block's address the search stops at that block's own node, with its size, and never passes the root |
| Buddy.BitmapBuddy.BlockSize | src/bitmap_buddy.c:332-354 | the rounded size of a live block |
| Buddy.BitmapBuddy.RemainSize | src/bitmap_buddy.c:373-416 | the walk ends within its 50 slots and returns the heap size minus the bytes in live blocks |
| BuddyRuns.Run | src/bitmap_buddy.c:165-256 | over any series of requests each gets the lowest block clear of all live ones, or NULL exactly when there is none, and live bytes are the sum of the rounded sizes |
| BuddyRuns.HandedOutApart | src/bitmap_buddy.c:165-256 | no two blocks handed out in one run overlap |
| BuddyRuns.RunFromNew | src/bitmap_buddy.c:114-416 | after a new heap and any series of requests the remaining size is the heap size minus the rounded sizes handed out |
| BuddyRuns.MergeExact | src/bitmap_buddy.c:315-318 | the merged value is right exactly when not both halves are whole and the two values do not add up to the height |
| BuddyRuns.MergeFails | src/bitmap_buddy.c:315-318 | two inputs on which it is wrong |
| BuddyHonest.NodeHonest | src/bitmap_buddy.c:199-252 | a node's value is log2 of the largest free aligned block below it exactly when the node is not inside a live block |
| BufferRing.LinkedFirst | src/fs_buf.c:35-39 | the four stores put a buffer first in the ring |
| BufferRing.Unlinked | src/fs_buf.c:121-122 | the two stores take a buffer out of the ring |
| BufferCache.Cache.constructor | src/fs_buf.c:21-43 | all buffers in the ring, without users and without a sector |
| BufferCache.Cache.Reserve | src/fs_buf.c:48-84 | the sector's buffer if it has one; else the least recently released buffer without users; the panic exactly when there is none; buffers with users keep their sector and no sector gets two buffers |
| BufferCache.Cache.Fill | src/fs_buf.c:87-99 | the holder sees what is on disk |
| BufferCache.Cache.Bwrite | src/fs_buf.c:102-107 | the disk changes in that sector to what the holder sees, and all other buffers stay true |
| BufferCache.Cache.Drop | src/fs_buf.c:117-128 | the last user's release makes the buffer the most recent; the list stays a permutation ordered by release |
| BufferCache.WrittenThrough | src/fs_buf.c:102-107 | a sector written from the one buffer that has it leaves every buffer true to the disk |
| BufferCache.MovedFirst | src/fs_buf.c:119-127 | moving a buffer to the front keeps the list complete and sorted by last release |
| CacheRuns.Run | src/fs_buf.c:48-129 | over any interleaving of steps in which edits are written before release every look sees the plain disk, the disk is what the writes alone make of it, and every reservation gets the sector's buffer or the least recently released one without users |
| Pipe.Pipe.Write | src/fs_pipe.c:69-93 | bytes go in, in order, as far as there is room; it sleeps or fails only on a full pipe |
| Pipe.Pipe.Read | src/fs_pipe.c:96-122 | bytes come out in order, as many as asked for, held and deliverable; a byte that cannot be delivered is lost; it sleeps or fails only on an empty pipe with a writer |
| Pipe.Pipe.Close | src/fs_pipe.c:51-66 | one end closes, and the pipe goes exactly when both are closed |
| Pipe.CountersExact | src/fs_pipe.c:77-112 | full and empty are told apart by the wrapped counters |
| Pipe.Run | src/fs_pipe.c:69-122 | over any interleaving, bytes in equal bytes out and what is held, at most 512, across wrap of the counters |
| Strings.HasZeroExact | src/string.c:4-8 | HASZERO is nonzero exactly when a byte of the word is zero |
| Strings.LacksByte | src/string.c:158-159 | the test with c repeated holds exactly when no byte of the word is c |
| Strings.Strlen | src/string.c:132-146 | the distance to the first NUL, for every alignment |
| Strings.Memchr | src/string.c:148-166 | the first c among n bytes, or none exactly when there is none |
| Strings.Memmove | src/string.c:64-81 | the bytes as they were before, even where the ranges overlap; nothing else changes |
| Strings.Strncpy | src/string.c:208-231 | the string without its NUL, then zeros up to n bytes; nothing else changes, and words are loaded and stored at multiples of their size only |

## Left out

- The directory-entry cache, reference counts and path walking (`eget`, `eput`, `edup`, `lookup_path`): an entry is found again by a parent pointer whose slot may be reused.
- Locks, semaphores, sleep and wakeup, and the scheduler: the cache and the pipe are cut into steps instead, and a buffer's semaphore is the flag of who holds it.
- Devices: the disk is a sequence of sectors. The FAT layer reads and writes it directly; that the buffer cache in between cannot be seen is `CacheRuns.Run`.
- FatFiles.Ewrite: claimed when enough clusters are free (`RoomFor`); what the missing check does to the chain otherwise is `FatFull.RelocFull` and `FatFull.StartFull`, and the bytes then written at cluster 1 are not modelled. User copies that fail inside `rw_clus` are not modelled.
- FatWriteBack.Session: for an entry whose first byte counts its records, as `emake` writes them behind the dot entries; what `eupdate` does to others is `FatEdits.UpdateIff`.
- Sv39.WalkIsMap: the access checks, the accessed and dirty bits and the sign extension of addresses are left to the hardware.
- FatFull.RelocFull: with the two reserved entries in use and not the number of a cluster, as on every formatted volume.
- FatSectors.FatVolume.AllocClus: for sector numbers past the last cluster that stay within 32 bits, and with the two reserved entries in use, as on every formatted volume.
- FatDirectory.Emake: for names of 1 to 247 bytes, since a longer one does not fit the buffer `enext` reads it into, and whose short name does not start with 0xE5, the mark of an empty slot.
- FatDirectory.Enext: in directories whose long records come in order down to their short one (`FatScan.Sound`), perhaps without the first of them; the names of other long records may leave the buffer.
- FatDirectory.Eupdate: where the count leads past the end of the directory, on volumes whose stray sectors have 32-bit numbers (`NoWrap`); below that end on every volume.
- FatDirectory.Eremove: likewise.
- FatRecords.GenerateShortname: nothing says that short names are unique or legal, which the code does not see to.
- FatEdits.ListsIff: for names other than the empty one, which no entry has, and the two dot names, which are never looked for in the records.
- FatListing.RunDir: with names other than the empty one and the two dot names, which `Dirlookup` covers, in directories below 4 GB (`DIR_LIMIT`), and where a count that leads past the end of the directory writes behind the volume (`StrayBehind`); what it writes elsewhere is stated by `Eupdate` and `Eremove`.
- FrameRuns.Run: over frames not below the first one; what one such call does is stated by `Frames.Dealloc`.
- Buddy.BitmapBuddy.Alloc: claimed for requests up to 2^31 bytes, above which the rounding wraps to 0.
- Buddy.BuddyNew: claimed for sizes of 128 to 2^29 bytes if they are powers of two; below that the bit layers do not fill whole bytes, above it `2 * size` overflows.
- Buddy.BitmapBuddy.SearchUp: claimed for addresses of live blocks; the walk back up in `buddy_free` after the block's node is set free is only covered by `BuddyRuns.MergeExact`.
- Fork.FromExistedUser: for parents whose pages are all in memory, as `va2pa` reads them; the list of mmap areas is not copied by the code either.
- MemorySet.MemorySet.Push: without data; `from_elf`, `brk` and pushing data depend on how the input is aligned.
- Areas are values in a list, and a list of nodes is a sequence, so that two areas cannot share a node by accident is not shown.
- BufferCache.Cache.Reserve: the pair of all ones that `binit` uses as a mark is not asked for; reference counts do not wrap.
- BufferCache.Cache.Bwrite: for a held buffer that has been filled, as `bread` leaves it; the panic of a thread that does not hold it is a step not taken in `CacheRuns.Run`.
- CacheRuns.Run: a release of a buffer with an edit that is not on disk is not taken as a step; the code allows it and the edit is then seen by later readers until the buffer is recycled.
- UserCopy.CopyIn: over pages that are bound and present; `va2pa` panics or reads page 0 for others.
- Strings.Memmove: over elements of any type, since it only moves them.
- `strcpy`, `strcmp`, `atoi`, `formatname`, `estat`, `ls` and the mmap fault handler would only add easy members.
