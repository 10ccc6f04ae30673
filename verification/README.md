# MicroOS verification

Dafny models of the parts of MicroOS that carry the most logic, each proved against a specification that
does not mention the code's own steps. `dafny verify dfyconfig.toml` checks everything.

**DEFLATE** (`BitStream`, `CanonicalCode`, `DeflateFormat`, `Tinflate`, `TinflateTrees`,
`TinflateBlocks`, `TinfUncompress`, `DeflateFixed`, `DeflateRfc`, `DeflateWide`, `DeflateStored`).
`DeflateFormat.Inflate` is a partial decoder over bit positions after sections 3.2.3 to 3.2.7 of RFC
1951; `CanonicalCode` is section 3.2.2. The mutable decoder of `tinflate.c` is proved to succeed exactly
on the streams that have a meaning and fit the destination, to write exactly that meaning, and to report
a buffer error on a well-formed stream that does not fit. `DeflateRfc` says how this meaning differs from
that of the RFC, which allows more distance codes. `DeflateFixed` says in plain numbers what the
definitions of the format come to, and what a block with the fixed codes stands for. `DeflateStored` adds
a storing compressor whose output decodes to its input.

**FAT** (`FatImage`, `FatBits`, `FatVolume`, `FatChains`, `FatAllocator`, `FatRuns`, `ClusterMath`,
`FatFile`, `FatFileRead`, `FatFileWrite`, `FatFileSeek`, `FatFileTruncate`, `FatSession`, `FatLinkMap`).
The disk is an array of 512-byte sectors whose transfers succeed. Three layers: the window with its
mirrored second FAT and 12, 16 and 28-bit entries; the allocator on disjoint acyclic chains, over every
run of requests; file I/O with a dirty sector buffer, direct transfers and seeking. `FatSession` puts the
last together: every run of seeks, writes, reads and truncations on one handle behaves as on a plain byte
sequence, and a read returns for each byte what the latest write put there. The configuration is that of
`ffconf.h`: read and write, own sector buffer per file, no exFAT, 32-bit sizes; the cluster link map,
which `FF_USE_FASTSEEK` leaves out of the build, is modelled as well.

**Runs and protocols.** `Scheduler`: the cyclic search and how soon a ready task is chosen. `Vmm`: page
directories that share the kernel's tables and nothing else, from boot over starts, exits and mappings in
any order. `TcpLink` (the protocol as steps on values), `SocketFifo` and `Tcp` (the socket): in-order
bytes from segments to the application. `IpcTunnel`: single reads and writes of the shared page in every
interleaving, and progress in every fair one.

**Round trips and arithmetic.** `UnixTime` against a calendar counted year by year; `SafFormat`,
`SafMake`, `SafRead` and `Initrd` for the archive writer and its two readers; `Adler32` and `Crc32`
against their definitions.

Where the code does not meet what one would expect of it, the model keeps the code and states the exact
condition:

- `f_getfree` scans 16 and 32-bit tables from entry 0, so its count is right exactly when the cached
  count was valid, the table has 12-bit entries, or neither reserved entry is zero. On a 12-bit table
  without a cached count it fails exactly if an entry holds the reserved value 1 (`FatAllocator.GetFree`,
  `FatAllocator.MiscountedScan`).
- `remove_chain` with a previous cluster that is itself free marks it as a chain end without counting
  it, which makes a known count wrong exactly if a cluster stays in use (`FatAllocator.RemoveChain`,
  `FatAllocator.MiscountedRelease`). The defect is latent: in `f_truncate`, the one caller that passes a
  previous cluster, it cannot be free (`FatAllocator.ReleaseAfter`).
- Building the link map fails with an internal error exactly when the end mark of the chain equals the
  number of its last cluster plus one, a value every other reader takes as an end
  (`FatLinkMap.CreateLinkMap`, `FatLinkMap.AmbiguousEnd`).
- `tinf_uncompress` refuses dynamic blocks that declare 31 or 32 distance codes, which RFC 1951 allows;
  it differs from the RFC exactly on streams that have a meaning by the RFC and reach such a block
  (`DeflateRfc.InflateDiffers`), and there are such streams (`DeflateWide.WideDiffers`).
- A TCP FIN is counted whatever its sequence number. A disconnect after it opens the data path again,
  one byte further on. Delivery stays in order for all segments to come exactly if no FIN was counted, or
  all bytes of the stream not yet delivered are the same and the numbers do not wrap behind the last one
  (`TcpLink.HangUpExact`, `Tcp.SkippedByte`).
- The IPC handshake completes exactly when the client writes its acknowledgement while the host is not
  between reading the state and answering it; otherwise the acknowledgement is overwritten and no
  continuation connects. Both happen (`IpcTunnel.HandshakeCompletes`, `IpcTunnel.BothReached`).
- A kernel mapping that needs a new page table takes the directory slot in every active task, so all
  pages that a task had there disappear (`Vmm.Machine.MapPage`, `Vmm.LostPage`); the table it had is not
  given back when the task ends.
- The end of a task destroys its context, which leaves the remaining tasks with valid contexts exactly if
  no thread of the task is active (`Vmm.Machine.ExitTask`, `Vmm.OrphanedThread`).
- It also frees every page that the context maps by tables of its own, and exactly these. A page that
  another task maps as well, as `sys_mmmap` arranges for the IPC tunnel, is free while that task still
  uses it (`Vmm.Machine.PagesGivenBack`, `Vmm.SharedPageFreed`).
- `from_unix_time` takes 32 bits, so a date comes back from `to_unix_time` exactly if its time fits them
  (`UnixTime.DateRoundTrip`).

Numbers are unbounded integers; widths are written out where the code depends on them (unsigned
differences of sector numbers, sequence numbers, the file size limit, the 32-bit sums of Adler-32). C
assertions are proved to hold, or become a result of their own where callers can break them.

## Model

| member | source | states |
|---|---|---|
| BitStream.LsbTake | user/libtinf/tinflate.c:195-209 | Taking n of m buffered bits: the low part is the value read, the rest is the stream from n bits on. |
| BitStream.LsbSplit | user/libtinf/tinflate.c:177-192 | A buffer of a + b bits is the first a bits plus the next b shifted above them, the law behind refilling. |
| CanonicalCode.SpellsUnique | user/libtinf/tinflate.c:225-259 | At most one symbol has its section 3.2.2 code at a position of the stream: the code is prefix-free for every set of lengths. |
| CanonicalCode.KraftIsFirstCode | user/libtinf/tinflate.c:134-145 | The code after the last of length 15, doubled as the running number of available leaves is, measures the code space that all lengths use. |
| CanonicalCode.CompleteDecodes | user/libtinf/tinflate.c:147-154 | If the lengths are complete, the bits at every position with 15 of them ahead start with the code of some symbol, and it is decoded. |
| CanonicalCode.OverSubscribed | user/libtinf/tinflate.c:134-145 | A level that needs more leaves than are available makes the whole set over-subscribed. |
| CanonicalCode.SlotDistinct | user/libtinf/tinflate.c:156-161 | Different coded symbols get different places in the sorted table. |
| CanonicalCode.DecodeSymbolNone | user/libtinf/tinflate.c:225-259 | Decoding fails exactly when the bits spell no code inside the stream. |
| Tinflate.Data.Refill | user/libtinf/tinflate.c:177-192 | Buffered bits are the next bits of the source, the tag stays below 2^bitcount, and overflow is set exactly if bits past the end were asked for. |
| Tinflate.Data.GetBits | user/libtinf/tinflate.c:195-216 | The value is the next bits of the source least significant first; overflow exactly when the source ends first; fewer than 8 bits stay buffered. |
| Tinflate.Data.GetBitsBase | user/libtinf/tinflate.c:219-222 | Base plus the value of the extra bits, also for zero bits. |
| Tinflate.Data.DecodeSymbol | user/libtinf/tinflate.c:225-259 | Walking the counts returns the unique symbol whose section 3.2.2 code is next in the stream, after at most 15 bits and without either assertion failing. |
| TinflateTrees.BuildTree | user/libtinf/tinflate.c:109-173 | Accepts exactly the complete, lone one-bit and empty sets of lengths; then counts and symbols are in canonical order, a lone code padded. |
| TinflateTrees.ComputeOffsets | user/libtinf/tinflate.c:133-154 | Offsets are the canonical positions; the acceptance test is completeness. |
| TinflateTrees.FillSymbols | user/libtinf/tinflate.c:156-161 | Every coded symbol stands at its canonical position. |
| TinflateTrees.BuildFixedTrees | user/libtinf/tinflate.c:66-106 | Both trees describe the fixed code lengths of section 3.2.6. |
| TinflateBlocks.LengthTables | user/libtinf/tinflate.c:392-403 | The length tables of the code equal the recurrence of section 3.2.5. |
| TinflateBlocks.DistanceTables | user/libtinf/tinflate.c:405-416 | The distance tables of the code equal the recurrence of section 3.2.5. |
| TinflateBlocks.ReadCodeLengthCode | user/libtinf/tinflate.c:298-309 | The code-length lengths in transmission order, or overflow exactly when the source is too short. |
| TinflateBlocks.ReadLengthItem | user/libtinf/tinflate.c:324-354 | One run-length item with its repeat count; failure exactly where the format has none. |
| TinflateBlocks.ReadLengthRuns | user/libtinf/tinflate.c:323-363 | Exactly hlit + hdist lengths as the format yields them; an overlong run is refused. |
| TinflateBlocks.DecodeTrees | user/libtinf/tinflate.c:262-384 | Both dynamic trees and the position after them agree with section 3.2.7, in both directions. |
| TinflateBlocks.CopyBytes | user/libtinf/tinflate.c:471-476 | The byte-by-byte copy is the match of the format even when it overlaps itself. |
| TinflateBlocks.BlockStep | user/libtinf/tinflate.c:418-478 | One symbol of a block: literal, end, or match; nothing is written outside the destination or copied from before its start. |
| TinflateBlocks.InflateBlockData | user/libtinf/tinflate.c:389-479 | A compressed block yields what the format says, a data error exactly where it says nothing, a buffer error only if it does not fit. |
| TinflateBlocks.InflateUncompressedBlock | user/libtinf/tinflate.c:482-521 | A stored block read from the source pointer starts at the next byte boundary of section 3.2.4. |
| TinfUncompress.InflateDynamicBlock | user/libtinf/tinflate.c:534-547 | A dynamic block against its meaning. |
| TinfUncompress.InflateFixedBlock | user/libtinf/tinflate.c:524-531 | A fixed block against its meaning. |
| TinfUncompress.InflateBlocks | user/libtinf/tinflate.c:573-605 | The block loop halts and agrees with the rest of the stream from every block on. |
| TinfUncompress.Uncompress | user/libtinf/tinflate.c:556-615 | TINF_OK if and only if the source is a well-formed stream whose bytes fit; then exactly these bytes are written and counted, nothing else changes. |
| DeflateRfc.BlocksDiffer | user/libtinf/tinflate.c:286-297 | For every stream the meaning that the decoder implements is that of RFC 1951 with 1 to 32 distance codes, except that there is none if a block with more than 30 is reached. |
| DeflateRfc.InflateDiffers | user/libtinf/tinflate.c:286-297 | The decoder differs from RFC 1951 if and only if the stream has a meaning by the RFC and reaches a block with more than 30 distance codes. |
| DeflateWide.WideDiffers | user/libtinf/tinflate.c:286-297 | A stream of 13 bytes with 31 distance codes that stands for no bytes by the RFC and is refused. |
| DeflateRfc.UncompressRfc | user/libtinf/tinflate.c:556-615 | TINF_OK if and only if the source has a meaning by the RFC, no block reached declares more than 30 distance codes, and the bytes fit; then these bytes are written. |
| DeflateFormat.CopyMatchPeriodic | user/libtinf/tinflate.c:471-474 | A match longer than its distance repeats the last bytes periodically. |
| DeflateFormat.CopyMatchBehind | user/libtinf/tinflate.c:471-474 | Every copied byte equals the one the distance before it. |
| DeflateFixed.CodeLengthAt | user/libtinf/tinflate.c:268-309 | The field for symbol j stands at place j - 16, 3 for 0, 2j - 12 from 8 on and 19 - 2j below; symbols whose field is not sent have length zero. |
| DeflateFixed.RepeatItemIs | user/libtinf/tinflate.c:330-352 | 16 repeats the last length 3 to 6 times, 17 a zero 3 to 10 times, 18 a zero 11 to 138 times, by 2, 3 and 7 further bits. |
| DeflateFixed.LengthBaseIs | user/libtinf/tinflate.c:392-403 | The least length of each code in closed form. |
| DeflateFixed.DistanceBaseIs | user/libtinf/tinflate.c:405-416 | The least distance of each code in closed form. |
| DeflateFixed.StoredIs | user/libtinf/tinflate.c:482-521 | A stored block has a 16-bit length, its complement byte by byte, and that many bytes; anything else is malformed. |
| DeflateFixed.ExampleCodes | user/libtinf/tinflate.c:134-161 | The lengths (3, 3, 3, 3, 3, 2, 4, 4) give the codes of the example in section 3.2.2 of RFC 1951. |
| DeflateFixed.FixedCode | user/libtinf/tinflate.c:66-106 | Width and value of each fixed code as listed in section 3.2.6. |
| DeflateFixed.FixedStream | user/libtinf/tinflate.c:524-531 | A stream of a fixed block that spells literals and copies in reach, in closed form, stands for their bytes. |
| DeflateFixed.FixedAndUncompress | user/libtinf/tinflate.c:556-615 | The decoder writes exactly these bytes. |
| DeflateStored.StoreRoundTrip | user/libtinf/tinflate.c:482-521 | For every byte string, inflating its stored form gives it back. |
| DeflateStored.StoreAndUncompress | user/libtinf/tinflate.c:556-615 | The decoder run on stored data fills the destination with the data. |
| FatImage.EntryAfterWrite | mckrnl/fs/fatfs/ff.c:1131-1258 | Writing an entry and reading any entry back gives the masked value there and the old value elsewhere, also where 12-bit entries share a byte. |
| FatBits.EntryIsNumber | mckrnl/fs/fatfs/ff.c:1131-1198 | Entry c is the number of 12, 16 or 28 bits at bit 12, 16 or 32 times c of the table, least significant bit first. |
| FatBits.BitsAfterWrite | mckrnl/fs/fatfs/ff.c:1209-1258 | Writing an entry sets its bits to those of the value and changes no other bit of the table, reserved ones and neighbours included. |
| FatVolume.Volume.constructor | mckrnl/fs/fatfs/ff.c:3496-3513 | A mounted image is a valid volume with nothing known about free clusters, whenever the layout is that of mount_volume. |
| FatVolume.Volume.SyncWindow | mckrnl/fs/fatfs/ff.c:1025-1043 | The window reaches its sector and, for the first FAT, the second copy; equal copies are equal again afterwards. |
| FatVolume.Volume.MoveWindow | mckrnl/fs/fatfs/ff.c:1047-1068 | The sector appears in the window, unless it was there and stale; every sector outside the FATs shows the same bytes as before, a dirty window included. |
| FatVolume.Volume.Clst2Sect | mckrnl/fs/fatfs/ff.c:1114-1122 | The first sector of a cluster, counted cluster by cluster, or 0 out of range. |
| FatVolume.Volume.ClustersApart | mckrnl/fs/fatfs/ff.c:1114-1122 | Sectors of different clusters do not overlap. |
| FatVolume.Volume.GetFat | mckrnl/fs/fatfs/ff.c:1131-1198 | The entry as seen through the write-back window, a number of the bit stream of the table, 1 for cluster numbers out of range; no entry changes. |
| FatVolume.Volume.PutFat | mckrnl/fs/fatfs/ff.c:1209-1258 | Exactly the bits of one entry change, to those of the value, also across a sector boundary. |
| FatChains.StretchChain | mckrnl/fs/fatfs/ff.c:1570-1573 | Linking a free cluster to a tail lengthens the chain by it. |
| FatChains.ReleaseChain | mckrnl/fs/fatfs/ff.c:1423-1456 | On a well-formed chain exactly its clusters are freed, and the loop succeeds. |
| FatChains.CutChain | mckrnl/fs/fatfs/ff.c:1417-1456 | Cutting a chain leaves a well-formed front part and frees the rest. |
| FatChains.ZeroedCount | mckrnl/fs/fatfs/ff.c:1433-1436 | Freeing a chain raises the number of free clusters by its length. |
| FatChains.StepKeepsPartition | mckrnl/fs/fatfs/ff.c:1399-1585 | Each allocation or release keeps the table a set of disjoint acyclic chains and changes no entry of another chain. |
| FatChains.StepKeepsOthers | mckrnl/fs/fatfs/ff.c:1399-1585 | An allocation changes at most the last cluster of its chain and a free one, a release only clusters of its chain. |
| FatChains.RunKeepsPartition | mckrnl/fs/fatfs/ff.c:1399-1585 | So does every run of them. |
| FatAllocator.FindFree | mckrnl/fs/fatfs/ff.c:1556-1568 | The wrap-around search finds the first free cluster after the start, round the table, and fails only if none is free. |
| FatAllocator.CreateChain | mckrnl/fs/fatfs/ff.c:1494-1585 | From any hint: follows an existing link, or allocates the next cluster if it is free, else the first free one after the last allocated, and links it; 0 only when none is free, on any table; the cached count stays exact. |
| FatAllocator.RemoveChain | mckrnl/fs/fatfs/ff.c:1399-1491 | Frees along the links on any table, well-formed or not, and halts; the count stays exact if and only if no free cluster was marked as an end, or all are free afterwards. |
| FatAllocator.ReleaseAfter | mckrnl/fs/fatfs/ff.c:4858-4866 | The way f_truncate uses remove_chain never marks a free cluster: on any table the count stays exact. |
| FatAllocator.MiscountedRelease | mckrnl/fs/fatfs/ff.c:1417-1420 | A table on which releasing behind a free cluster frees one cluster and takes one. |
| FatAllocator.ReleaseFrom | mckrnl/fs/fatfs/ff.c:1423-1456 | The loop halts on cyclic and cross-linked tables because each round zeroes a non-zero entry. |
| FatAllocator.GetFree | mckrnl/fs/fatfs/ff.c:4750-4833 | Fails exactly on a 12-bit scan that meets the reserved value 1, storing nothing; else a count at most two too high, and exactly when it is right. |
| FatAllocator.ZerosAreFree | mckrnl/fs/fatfs/ff.c:4804-4821 | Scanning from entry 0 overcounts by the reserved entries that are zero. |
| FatAllocator.MiscountedScan | mckrnl/fs/fatfs/ff.c:4804-4821 | A table of 16-bit size, empty but for entry 0, on which the scan counts one too many. |
| FatRuns.ShortenChain | mckrnl/fs/fatfs/ff.c:4858-4866 | Following a chain and releasing behind its m-th cluster cuts exactly that chain on the volume. |
| FatRuns.Serve | mckrnl/fs/fatfs/ff.c:1399-1585 | Each request on the volume is answered by the step it asks for, or by none only if the disk is full or it does not apply; disjoint acyclic chains, the exact free count, both copies of the FAT and the entries of all other chains stay. |
| FatRuns.Run | mckrnl/fs/fatfs/ff.c:1399-1585 | In every run of requests each is answered by its own step from one table to the next; disjoint acyclic chains and the exact free count stay, and the outcome is that of the steps on the table alone. |
| ClusterMath.MaskIsOffset | mckrnl/fs/fatfs/ff.c:3875 | The mask with a power of two gives the sector inside the cluster. |
| ClusterMath.ClusterStart | mckrnl/fs/fatfs/ff.c:4455-4458 | Division and masking by the cluster size give the cluster index and its first byte. |
| FatFile.File.Stretch | mckrnl/fs/fatfs/ff.c:3984-3997 | Following or stretching from a cluster of the file keeps its bytes, its chain and all other files. |
| FatFile.File.StartChain | mckrnl/fs/fatfs/ff.c:3979-3998 | A first cluster for a file without one, or a full disk. |
| FatFile.File.Flush | mckrnl/fs/fatfs/ff.c:4003-4006 | Writing the dirty buffer back changes no byte of the file and no sector of another. |
| FatFile.File.BufferSector | mckrnl/fs/fatfs/ff.c:3916-3927 | After it the buffer shows the sector, whatever it showed before. |
| FatFile.File.PhysInjective | mckrnl/fs/fatfs/ff.c:1114-1122 | Different sectors of a file are different sectors of the disk. |
| FatFile.File.ByteOnDisk | mckrnl/fs/fatfs/ff.c:1114-1122 | Byte i of a file is at offset i mod 512 of the sector that the chain and the cluster size give, counted from the data area. |
| FatFile.File.RunWritten | mckrnl/fs/fatfs/ff.c:4011-4032 | After a direct transfer the file is the old one with the bytes laid over it. |
| FatFile.File.PartWritten | mckrnl/fs/fatfs/ff.c:4039-4055 | So it is after part of a sector was changed in the buffer, also at the growing edge. |
| FatFile.File.AfterFat | mckrnl/fs/fatfs/ff.c:1131-1198 | Work on the FAT keeps every byte of an open file. |
| FatFileRead.DirectRead | mckrnl/fs/fatfs/ff.c:3896-3915 | Sectors read directly show the dirty buffer where it belongs. |
| FatFileRead.ReadRound | mckrnl/fs/fatfs/ff.c:3873-3937 | One round delivers the next bytes of the file. |
| FatFileRead.Read | mckrnl/fs/fatfs/ff.c:3850-3940 | The bytes at the file pointer, as many as asked for and present; the file and all others stay as they are. |
| FatFileWrite.WriteSectors | mckrnl/fs/fatfs/ff.c:4011-4032 | Whole sectors up to the end of the cluster replace the bytes there; a buffered one is refilled. |
| FatFileWrite.WriteRound | mckrnl/fs/fatfs/ff.c:3975-4057 | One round replaces bytes at the file pointer, or none if no cluster is free. |
| FatFileWrite.Write | mckrnl/fs/fatfs/ff.c:3950-4062 | The file is the old one with the written prefix laid over it; the prefix is short only at the 32-bit limit or when no cluster is free; other files keep their links and show the same bytes, a dirty directory window included. |
| FatFileSeek.FollowChain | mckrnl/fs/fatfs/ff.c:4473-4494 | The cluster following loop reaches the cluster of the target, stretching the chain when writing, or stops where the disk is full. |
| FatFileSeek.Lseek | mckrnl/fs/fatfs/ff.c:4444-4519 | Moves to the offset; beyond the end a writable file is lengthened with its old bytes as a prefix, a read-only one clips; short only on a full disk. |
| FatFileTruncate.Truncate | mckrnl/fs/fatfs/ff.c:4842-4883 | The file is cut at the file pointer, the clusters behind it are free, the rest and all other files stay. |
| FatSession.Perform | mckrnl/fs/fatfs/ff.c:3850-4062 | Each call is allowed by the plain byte sequence with a position. |
| FatSession.Session | mckrnl/fs/fatfs/ff.c:3850-4062 | Every run of calls on one handle behaves as on a plain byte sequence; a call that stopped early left a table without a free cluster. |
| FatSession.BlankSession | mckrnl/fs/fatfs/ff.c:3850-4062 | So does every run on a new file of a blank volume; the base case. |
| FatSession.Untouched | mckrnl/fs/fatfs/ff.c:3850-4062 | In every run a byte stays what it is until a call touches it. |
| FatSession.LatestWrite | mckrnl/fs/fatfs/ff.c:3850-4062 | In every run a read returns for each byte what the latest write put there. |
| FatLinkMap.CreateLinkMap | mckrnl/fs/fatfs/ff.c:4393-4418 | The map stands for the chain and needs two items per maximal run and two more; it fits exactly if the table is that large; the exact condition of the internal error. |
| FatLinkMap.ClmtClust | mckrnl/fs/fatfs/ff.c:1597-1615 | The cluster of an offset from the map, 0 beyond its end. |
| FatLinkMap.LookupAfterBuild | mckrnl/fs/fatfs/ff.c:4393-4418 | Looking an offset up equals following the links from the start. |
| FatLinkMap.AmbiguousEnd | mckrnl/fs/fatfs/ff.c:4402-4408 | A concrete table on which building the map fails. |
| FatLinkMap.AfterInChain | mckrnl/fs/fatfs/ff.c:1131-1198 | Following the links n times reaches cluster number n of the chain. |
| UnixTime.ToUnixTime | mckrnl/utils/unix_time.c:3-15 | The seconds counted day by day since 1970, for every date whose day sum fits a 32-bit int; every operation stays in its 32 or 64-bit type. |
| UnixTime.IntSumIs | mckrnl/utils/unix_time.c:8 | The sum formed as an int is the day count up to one, so it fits for every date whose time fits 32 bits. |
| UnixTime.FromUnixTime | mckrnl/utils/unix_time.c:17-48 | For every 32-bit time a valid date whose seconds are that time; every operation stays in its 32-bit type. |
| UnixTime.YearsClosed | mckrnl/utils/unix_time.c:6-8 | The closed form for days before a year equals the sum of year lengths. |
| UnixTime.FourCenturies | mckrnl/utils/unix_time.c:6-8 | Four centuries have 146097 days, and 1 March 2000 is day 11017. |
| UnixTime.SecondsInjective | mckrnl/utils/unix_time.c:3-15 | Different dates are different times. |
| UnixTime.DateRoundTrip | mckrnl/utils/unix_time.c:3-48 | From the time of a date, cut to 32 bits, back to a date: the same one if and only if its time fits 32 bits. |
| UnixTime.TimeRoundTrip | mckrnl/utils/unix_time.c:3-48 | From the date of a time back to the time, for every 32-bit time. |
| Adler32.TinfAdler32 | user/libtinf/adler32.c:43-94 | The sum reduced at every byte (section 2.2 of RFC 1950), with 32-bit sums that never overflow. |
| Adler32.SumsAre | user/libtinf/adler32.c:43-94 | The sums in closed form: one and the bytes, and one per byte with each byte weighted by its place from the end, modulo 65521. |
| Adler32.Block | user/libtinf/adler32.c:44-91 | A block of up to 5552 bytes with one reduction agrees with reducing at every byte. |
| Adler32.BlockFits | user/libtinf/adler32.c:44-86 | Both sums stay below 2^32 anywhere in a block of 5552 bytes. |
| Crc32.TinfCrc32 | user/libtinf/crc32.c:40-56 | The nibble-table loop equals the bit-serial form. |
| Crc32.LminstCrc32 | user/lminst/crc32.c:49-58 | The byte-table loop equals the bit-serial form. |
| Crc32.CheckValue | user/libtinf/crc32.c:40-56 | The CRC of "123456789" is CBF43926, and that of nothing is 0. |
| Crc32.Residue | user/libtinf/crc32.c:40-56 | The register after any data with its CRC behind it is DEBB20E3. |
| Crc32.NibbleStep | user/libtinf/crc32.c:50-53 | One table step is four steps of the division. |
| Crc32.ByteStep | user/lminst/crc32.c:53-55 | One table step is eight steps of the division. |
| Crc32.NibbleEntry | user/libtinf/crc32.c:33-38 | Every nibble entry is what the division leaves of that nibble. |
| Crc32.RowOffset | user/lminst/crc32.c:3-47 | Every row of the byte table is the first row offset by a nibble entry, checked on all 256 entries. |
| Crc32.DivideLinear | user/libtinf/crc32.c:50-53 | A division step is linear over exclusive or. |
| Scheduler.Machine.SwitchToNextTask | mckrnl/scheduler/scheduler.c:218-234 | The first slot that may run is taken; exactly the slots passed have waited. |
| Scheduler.Machine.Schedule | mckrnl/scheduler/scheduler.c:236-273 | The round taken when not held by a pin, with the time passed in 32 bits; aborts exactly if no slot is active. |
| Scheduler.ClockWraps | mckrnl/scheduler/scheduler.c:251-253 | Across the wrap of the 32-bit clock the time passed is right below 2^31 milliseconds, and a waiting task becomes ready exactly when it has waited long enough. |
| Scheduler.Machine.Search | mckrnl/scheduler/scheduler.c:255-270 | The three passes find a slot exactly if one is active. |
| Scheduler.Machine.constructor | mckrnl/scheduler/scheduler.c:214-216 | The table at boot has no active slot. |
| Scheduler.Machine.InitTask | mckrnl/scheduler/scheduler.c:23-82 | The first inactive slot becomes active and the others stay; without one the assertion fails and nothing changes. |
| Scheduler.Nearer | mckrnl/scheduler/scheduler.c:218-273 | Every round goes to a given ready slot or comes nearer to it. |
| Scheduler.ReadyStays | mckrnl/scheduler/scheduler.c:218-273 | A round does not change a ready slot. |
| Scheduler.NearerStill | mckrnl/scheduler/scheduler.c:218-273 | An event that does not choose a ready slot leaves it ready, and a round brings it nearer. |
| Scheduler.ChosenInTime | mckrnl/scheduler/scheduler.c:218-273 | In every trace of timer, start, exit and other events with 32 rounds, a slot that is ready at the start and left to itself is chosen. |
| Scheduler.PinnedKeeps | mckrnl/scheduler/scheduler.c:246-248 | A pinned task keeps the processor over every trace in which its terminal is shown and nothing ends or changes it. |
| Scheduler.Run | mckrnl/scheduler/scheduler.c:23-273 | Every run of the machine is such a trace, up to the end of the last task. |
| Vmm.Machine.AllocTable | mckrnl/memory/pmm.c:140-155 | The first free frame kept for paging structures, marked used; none exactly if none is free. |
| Vmm.Machine.Init | mckrnl/memory/vmm.c:67-70 | A kernel context without entries, exactly if two frames are free; the base case of every run. |
| Vmm.Machine.CreateContext | mckrnl/memory/vmm.c:127-137 | A fresh directory without entries, exactly if two frames are free; all contexts keep what they have and frames are conserved. |
| Vmm.Machine.CloneKernel | mckrnl/memory/vmm.c:187-205 | The directory has the kernel's present entries and otherwise its own. |
| Vmm.Machine.StartTask | mckrnl/scheduler/scheduler.c:69-84 | A task starts, exactly if two frames are free, with a context of its own that has the kernel's entries and no others; all other slots and contexts stay. |
| Vmm.Machine.StartThread | mckrnl/scheduler/scheduler.c:77-84 | A thread shares the context of its parent; all other slots stay. |
| Vmm.Machine.DestroyContext | mckrnl/memory/vmm.c:207-265 | Exactly the directory, its header, the tables of its own and the pages they map are freed; the directories and tables of the other contexts stay allocated. |
| Vmm.Machine.PagesGivenBack | mckrnl/memory/vmm.c:224-248 | A page is freed if and only if the dying directory itself maps it, whether or not another directory does. |
| Vmm.Machine.ExitTask | mckrnl/scheduler/scheduler.c:191-203 | A thread only leaves its slot, any other task also frees its context; the state is valid afterwards if and only if no active thread had that context. |
| Vmm.Machine.MapPage | mckrnl/memory/vmm.c:142-185 | Exact failure cases, and every page table entry of every context afterwards, as a whole word: frame and flags asked for where the table is shared, zero in a new table, else as before; a new directory entry is present, has the flags and is the same for all who receive it. A mapping in a task changes no other context. |
| Vmm.Machine.EntriesTranslate | mckrnl/memory/vmm.c:162-180 | So every translation is known: the new page, nothing where a kernel table displaces one, else as before. |
| Vmm.Machine.TablesPrivate | mckrnl/memory/vmm.c:142-185 | Where the kernel has no table, no two contexts share one. |
| Vmm.Machine.TasksAgree | mckrnl/memory/vmm.c:142-205 | Where the kernel has a table, every active task has its entries and translates as it does. |
| Vmm.Machine.Lookup | mckrnl/memory/vmm.c:353-367 | The physical address of the translation, or 0. |
| Vmm.Happen | mckrnl/memory/vmm.c:127-265 | Every possible event happens, keeps the kernel's tables shared and all others private, conserves frames for paging structures, and does not change the page table entries of contexts it has nothing to do with. |
| Vmm.Run | mckrnl/memory/vmm.c:127-265 | So does every run; the tasks of other contexts do not reach the translations of an address space. |
| Vmm.LosePage | mckrnl/memory/vmm.c:162-178 | On any machine with two free frames, a page that a task mapped disappears when the kernel, so far without a table for its directory index, maps another page there. |
| Vmm.LostPage | mckrnl/memory/vmm.c:162-178 | From boot a machine gets there. |
| Vmm.OrphanedThread | mckrnl/scheduler/scheduler.c:200-203 | From boot a machine gets to an active thread whose page directory is a free frame. |
| Vmm.FreeShared | mckrnl/memory/vmm.c:224-248 | When a task ends, a page that it shares with another task is freed while the other still maps it. |
| Vmm.SharedPageFreed | mckrnl/syscall/sys_mmmap.c:15-18 | From boot a machine gets there. |
| SocketFifo.Fifo.Append | mckrnl/net/socket_manager.c:30-45 | The new bytes follow the old ones in a buffer that is large enough. |
| SocketFifo.Fifo.Take | mckrnl/net/socket_manager.c:105-125 | The front bytes are returned and the rest moves up. |
| Tcp.Connection.constructor | mckrnl/net/tcp.c:69-106 | A bound socket that has sent its SYN. |
| Tcp.Connection.Send | mckrnl/net/tcp.c:9-59 | After the handshake and until this side hangs up, byte i of all that is sent has sequence number iss + 1 + i modulo 2^32. |
| Tcp.Connection.Disconnect | mckrnl/net/tcp.c:50-54 | FIN is sent and counted; delivery stays in order if no FIN was counted or the byte it may hide does not show. |
| Tcp.Connection.Receive | mckrnl/net/tcp.c:136-231 | State, all numbers, replies, reset, handshake and delivery for every segment; bytes handed up after the handshake stay a prefix of the peer's stream. |
| Tcp.Connection.Take | mckrnl/net/socket_manager.c:105-125 | What is read follows what was read before, up to what was handed up. |
| Tcp.Handle | mckrnl/net/tcp.c:110-232 | Every event does to the socket and its buffer what the step on values does, sends what that sends, and keeps the invariant. |
| Tcp.Run | mckrnl/net/tcp.c:110-232 | In every run of genuine segments without a disconnect that can skip, what was read since the handshake is a prefix of what was delivered, and that of the peer's stream. |
| Tcp.Session | mckrnl/net/tcp.c:69-232 | For a new socket the condition is read off the events: genuine segments, and no disconnect once a FIN has come. |
| Tcp.Download | mckrnl/net/tcp.c:69-232 | A new socket that gets the answer to its SYN and any stream in consecutive slices is established, has acknowledged each slice with the number behind it, and enough reads return the whole stream. |
| Tcp.SkippedByte | mckrnl/net/tcp.c:169-207 | A run of a socket on genuine segments, a FIN ahead of the data, in which a disconnect makes [2, 3] of the stream [1, 2, 3] arrive. |
| TcpLink.NextSound | mckrnl/net/tcp.c:50-231 | Every event keeps the invariant: bytes delivered in order, the next one expected, our own bytes numbered. |
| TcpLink.NextBytes | mckrnl/net/tcp.c:203-207 | A slice whose sequence number is expected is the next part of the stream, across the wrap of 2^32. |
| TcpLink.RowDelivered | mckrnl/net/tcp.c:203-207 | Data in order is handed up and acknowledged segment by segment, for any number of segments and across the wrap of 2^32. |
| TcpLink.HangsUpFirst | mckrnl/net/tcp.c:50-54 | This side hangs up: FIN, its acknowledgement, the peer's FIN and the answer to it close the connection. |
| TcpLink.PeerHangsUpFirst | mckrnl/net/tcp.c:169-197 | The peer hangs up: its FIN is acknowledged, ours follows, and its acknowledgement closes the connection. |
| TcpLink.OutOfOrder | mckrnl/net/tcp.c:208-219 | Data that does not come next is dropped and resets the connection. |
| TcpLink.HonestRun | mckrnl/net/tcp.c:110-232 | Over every run of genuine segments without a disconnect that can skip, reads and deliveries are prefixes of the stream, whatever was handed up before the handshake. |
| TcpLink.HangUpExact | mckrnl/net/tcp.c:50-54 | After a disconnect all genuine segments to come keep the order if and only if no FIN was counted or the byte it may hide does not show. |
| TcpLink.Skip | mckrnl/net/tcp.c:169-207 | Otherwise two genuine segments break it. |
| TcpLink.SameOffset | mckrnl/net/tcp.c:204 | Offsets below 2^32 are determined by their sequence numbers. |
| IpcTunnel.ClientKeeps | user/libc/ipc.c:32-75 | Every single read or write of the client keeps the invariant. |
| IpcTunnel.HostKeeps | user/libc/ipc.c:17-64 | Every single read or write of the host keeps the invariant. |
| IpcTunnel.RunKeeps | user/libc/ipc.c:17-75 | So does every interleaving from a start that is neither acknowledged nor confirmed. |
| IpcTunnel.TunnelWorks | user/terminal/commands.c:513-522 | In every interleaving messages are handled in order and unchanged, no assertion fails, the client never writes while the host may read, and it is connected only after the host saw its acknowledgement. |
| IpcTunnel.HandshakeCompletes | user/libc/ipc.c:17-48 | The handshake completes if and only if the acknowledgement is not written between the host's read and its answer. |
| IpcTunnel.BothReached | user/libc/ipc.c:17-48 | From the start both the completed and the lost handshake are reached. |
| IpcTunnel.LostForever | user/libc/ipc.c:21-22 | An overwritten acknowledgement is never made up for. |
| IpcTunnel.HostAnswers | user/libc/ipc.c:50-64 | A posted message is handled and answered within as many host moves as it has bytes, and five; one client move then returns from the call. |
| IpcTunnel.ClientPosts | user/libc/ipc.c:66-71 | A message is posted by as many client moves as it has bytes, and four. |
| IpcTunnel.MoveWorks | user/libc/ipc.c:50-75 | After the handshake a move does nothing or one move of the work left, and while there is work one of the programs can do it: no connected state is stuck. |
| IpcTunnel.AllHandled | user/libc/ipc.c:50-75 | In every interleaving in which both programs keep moving, all messages are handled and the client returns from its last call. |
| IpcTunnel.TunnelDelivers | user/libc/ipc.c:17-75 | From the moment the client may acknowledge, three moves connect, and every fair continuation of twice the bytes and ten moves a message handles everything. |
| SafFormat.NodeSame | pkgs/saf/make/main.c:79-149 | A node is determined by the bytes of its range, so later writes elsewhere keep it. |
| SafFormat.FileBytes | pkgs/saf/make/main.c:79-149 | A file node byte by byte: the letters "smplrchv", the numbers of its fields least significant byte first, the name with zeros behind it, the contents. |
| SafFormat.FolderBytes | pkgs/saf/make/main.c:79-149 | A folder node likewise, with the number of its children and the place of each. |
| SafMake.CalculateSize | pkgs/saf/make/main.c:151-203 | The bytes that all nodes of a folder take. |
| SafMake.MakeNodes | pkgs/saf/make/main.c:79-149 | All nodes laid out one after the other with the returned offsets; earlier bytes stay; no panic. |
| SafMake.MakeNode | pkgs/saf/make/main.c:103-144 | One node with everything below it laid out at the offset reached. |
| SafMake.Make | pkgs/saf/make/main.c:220-241 | The calculated size is exactly the final offset and the archive is the layout of the tree, for every tree. |
| SafRead.ParseNode | pkgs/saf/extract/main.c:34-62 | The extractor rebuilds the node from its layout. |
| SafRead.RoundTrip | pkgs/saf/extract/main.c:34-62 | Making an archive and extracting it gives the same tree. |
| Initrd.Find | mckrnl/fs/initrd.c:8-32 | Agrees with the first-match case-insensitive walk of the tree: found node, nothing, or the failed assertion where a file is not last. |
| Initrd.FirstMatchIs | mckrnl/fs/initrd.c:24-29 | The child taken is the first whose name is the one looked up but for the case of ASCII letters. |
| Initrd.WalkIgnoresCase | mckrnl/utils/string.c:158-167 | Paths that differ in case only lead to the same node. |
| Initrd.SameAsField | mckrnl/utils/string.c:161-167 | The comparison is equality up to the case of ASCII letters. |
| Initrd.CopyUntil | mckrnl/utils/string.c:147-156 | The next component and the path behind it. |
| Initrd.ComponentsSplit | mckrnl/fs/initrd.c:11-19 | A slash separates: the components around it are those before and those after. |

## Left out

- Failing disk transfers: reads and writes of sectors always succeed, as in `mckrnl/fs/fatfs/diskio.c`, so the error returns for them are not modelled.
- Opening files, directory entries, FSInfo and volume mounting: a handle starts with a well-formed chain, and directory sectors appear only as a dirty window outside the file.
- Several handles at once on one volume, and the modified flag and timestamps of a handle.
- exFAT, the fast-seek branch of f_lseek other than its map, code pages and long names.
- FatFileSeek.Lseek: says nothing about the bytes exposed by seeking past the end.
- gzip and zlib headers around the decoder, and the compressor side of DEFLATE beyond stored blocks.
- Vmm.Machine.MapPage: flags are required to be below 0x1000, the width left below a frame address; larger values would change the address.
- Vmm.Machine.AllocTable: the bitmaps are one boolean per frame; their packing into inverted 32-bit words is not modelled.
- Vmm.Machine.ExitTask: resources and the kernel stack of the task are not modelled; where the kernel has no table a task is taken to map only frames that are not kept for paging structures.
- Vmm.Machine.CreateContext: the structure that points to the directory is a frame in a map from directories to these frames, not its bytes.
- Scheduler.Machine.Schedule: signed 32-bit arithmetic wraps, as compilers for the target do it.
- Tcp.Connection.Receive: segments are already routed to their socket and their header length taken off; listening sockets are not modelled.
- Tcp.Connection.Disconnect: the socket and its buffer, which socket_disconnect of the socket manager frees right after, stay readable.
- Tcp.Connection.Send: checksums, pseudo header and the network below are not modelled.
- SocketFifo.Fifo.Take: one poll; the timeout around it is not modelled.
- IpcTunnel.TunnelWorks: the page is shared memory with atomic single accesses in program order; a client that exits early is not modelled.
- SafMake.MakeNodes: entries that are neither files nor folders, on which the original loops, do not occur in the tree.
- SafRead.ParseNode: archives are laid out as the writer does; the behaviour on damaged ones, which may not end, is not modelled.
- Initrd.Find: components of 128 bytes and more, which overrun the name buffer, are excluded.
- UnixTime.ToUnixTime: dates before 1970, where the truncating division of the original differs, and dates millions of years ahead, whose day sum overflows an int, are excluded.
- Drivers, interrupts, console, shell, editor, calculator and the rest of the user programs.
