# Bloom-OS storage, audio and shell: a verified model

This project models the parts of the Bloom-OS kernel in which loops over mutable state are meant to compute something
simple, and proves that they do. It follows the C sources under `kernel/`:

- `Pmm.dfy`: the page allocator (`pmm.c`).
- `BlockDev.dfy`: the device registry and 512-byte reads over larger native sectors (`blockdev.c`).
- `FatFormat.dfy`, `FatLongNames.dfy`, `FatVolume.dfy`: the FAT32 reader (`fat32.c`). The first holds the meaning
  of the disk: the plain chain walk, a file's bytes, and a directory listing as one fold over its slots. The second
  holds an encoder for long names and the round trips. The third is the reader with its caches and static buffers.
- `FatLayout.dfy`: boot sector, FAT, file data and short entries as they are written, byte by byte, and that the
  meaning above finds all of it again.
- `Paths.dfy`, `FileSystem.dfy`: path splitting, resolution and the current directory (`fs.c`).
- `Mounting.dfy`: the table of mounted volumes, filled from the table of partitions (`fs.c`).
- `PartitionTables.dfy`, `Partitions.dfy`: what GPT and MBR tables define, and the scans that find it (`part.c`).
- `PartitionLayout.dfy`: MBR, EBR and GPT entries as they are written, and that the meaning above lists them.
- `Nvme.dfy`: submission and completion queues against a device that acts between any two host steps (`nvme.c`).
- `Keyboard.dfy`: the key ring, with interrupts between any two steps of the reader (`keyboard.c`).
- `AudioRing.dfy`, `Player.dfy`: the 32-page playback ring and the WAV player that feeds it (`hda.c`, `player.c`).
- `Explorer.dfy`: the sorted folder list and its selection (`explorer.c`, names compared as in `ui.c`).
- `Shell.dfy`: the in-place command line parser, numbers and line history (`shell.c`).
- `Common.dfy`: bytes, C strings and decimal digits.

A disk is a function from byte offsets to bytes. Whether the k-th driver call succeeds is an oracle fixed when the
block layer is created, so every result holds for every pattern of failures; the ghost counter `failed` says how many
block reads have failed, and "no read failed" is `failed` being unchanged. That no read will fail is a condition
before the call: every driver call from now on succeeds (`BlockLayer.Answering`), and the device holds the sectors the
call will ask for (`Volume.Healthy` for a cluster chain, `FileSys.CanResolve` for a path, `Partitions.TableInside` for
a scan). The layers are built on each other: FAT reads go through the modelled block layer, path lookups through the
modelled FAT reader, and the player reads its file through `FatVolume.Volume.ReadAt` and takes its pages from the
modelled allocator. C objects and static variables are classes with the same fields, and fixed buffers are arrays that
are written in place. Strings are C strings without their NUL except where a buffer's NULs matter (name buffers, the
shell's work buffer).

Field widths are explicit where they matter: 64-bit sector counts and addresses, 32-bit play totals, the 16- and 32-bit
fields of a mounted volume, the 16-bit NVMe identifier and the 32-bit numbers of the shell.

## Hypotheses

- A volume's addresses fit in 64 bits (`FatVolume.Fits`): `fat32.c` adds and multiplies without checking.
- The callback of a directory listing does not touch the volume (it is a pure function of the entries reported so far).
- An NVMe device answers commands in the order it fetches them and never posts into a full completion ring, and fewer
  than 63 calls have timed out (`Submit` requires a free submission slot).
- The memory map has page-aligned, disjoint descriptors and one that holds the bitmap (`Pmm.GoodMap`).
- `AudioRing.Ring.Faithful`: the position register shows the hardware's page, and the hardware only moves forward. Its
  true count is observed whenever the register is read and whenever a page is committed.
- A ring page is committed only after it was handed out, which is how the player uses it.

## Where the code does not do what one might expect

- A directory listing reports success although it was cut short when a sector of the FAT (not of the directory) cannot
  be read. `FatVolume.Volume.ListDir` states the status exactly, and that such a listing ends after the cluster whose
  FAT sector was unreadable; `FatVolume.UnreportedFailure` is a run in which the only entry is missing.
- Long-name slots are not checked for gaps: an entry whose last slot is present is reported under its own name if and
  only if no slot is missing (`FatLongNames.OwnNameIff`), and otherwise under the part before the lowest missing slot
  (`MissingSlot`); without slot 1 that is the empty name (`MissingFirstSlot`).
- An empty name stays selected when the explorer's sort mode changes if and only if the list is the root's and no item
  comes before an unnamed one in the next mode (`Explorer.List.CycleSort`; `EmptyNameIsLost` is a list where one does).
- A canonical path of more than 511 characters is cut off, and "." then no longer parses to the names of the current
  directory: exactly then (`Paths.PrintParse`, `Paths.DotParsesBack`; `Paths.LongPathIsLost` is one). What "." resolves
  to is then something else, exactly then too on a volume where different paths lead to different directories
  (`Paths.DotResolvesBack`); where a directory contains itself the shorter path may lead to the same directory.
- A FAT32 partition that is met while there is no room for another volume, or whose boot sector cannot be read then, is
  never tried again, because the cursor has moved past it: `Mounting.MountTable.MountNext` states exactly when a turn
  passes one over, `Mounting.StaysUnmounted` that it stays out, and `Mounting.RoomComesTooLate` is a run.
- A timed-out NVMe command shifts every later status by one call, because completions are not matched by identifier
  (`Nvme.QueuePair.Submit`, with the exact condition of a timeout; `Nvme.TimeoutShifts` is a run).
- When 32 or more pages are played between two position updates, the play total lags by whole laps for the rest of the
  stream (`AudioRing.RecoveredExact`, `RecoveredBelow`; `AudioRing.LapIsLost` is one).
- A word in the shell's sixteenth place keeps the rest of the line, if only a space: `Shell.WordsKept` says exactly when
  for every line, and `Shell.SeventeenthWordSticks` and `TrailingSpaceSticks` are two.
- The player counts a page as played once the hardware's count has passed its number, even if it was committed when the
  hardware was in its place, or past it, already. A finished stream was heard in full, every page from its start on, if
  and only if no page was committed late (`Player.Player.Poll`, `AudioRing.Ring.HeardIffNoneLate`), and a page is late
  exactly when the hardware has come to its place as it is committed, that is, when its count is at least the page's
  number (`AudioRing.Ring.Commit`); `AudioRing.LateIsNotHeard` is a run.

## Model

| member | source | states |
|---|---|---|
| Pmm.Allocator.constructor | kernel/pmm.c:61-129 | InitPmm over any memory map of page-aligned, disjoint descriptors with room for the bitmap: a page ends up free exactly when it is conventional memory, outside the bitmap and not among the first 256; the bitmap goes to the first descriptor it fits in; free, live and reserved pages partition [0, TotalPages) |
| Pmm.Allocator.SetBit | kernel/pmm.c:23-27 | setting the bit of a page takes exactly that page out of the free set, whatever the other seven bits of its byte are |
| Pmm.Allocator.ClearBit | kernel/pmm.c:29-33 | clearing it puts exactly that page back |
| Pmm.BitsAfter | kernel/pmm.c:23-39 | the byte arithmetic behind both: one bit changes, seven keep their value |
| Pmm.Allocator.FillBitmap | kernel/pmm.c:92-129 | the three passes over the bitmap leave the counter equal to the number of clear bits |
| Pmm.Allocator.PlaceBitmap | kernel/pmm.c:83-90 | the first conventional descriptor with enough pages |
| Pmm.HighestReached | kernel/pmm.c:68-80 | the page count comes from the highest end of backed memory: some such descriptor ends there and none later |
| Pmm.BitmapCovers | kernel/pmm.c:80-82 | the bitmap has one bit for every page, and a page less would not |
| Pmm.Allocator.FirstFree | kernel/pmm.c:134-139 | the scan stops at the lowest free page |
| Pmm.Allocator.AllocPage | kernel/pmm.c:131-142 | returns 0 exactly when nothing is free; otherwise the lowest free page, which was neither live nor reserved, becomes live and nothing else changes; the partition and the counter invariant hold |
| Pmm.Allocator.AllocPageBelow4G | kernel/pmm.c:144-160 | the same below 4 GiB |
| Pmm.Allocator.FreePage | kernel/pmm.c:162-170 | the page is free and not live afterwards, nothing else changes, freeing a free page does nothing, and the partition into free, live and reserved pages survives if and only if the page was not a reserved one |
| BlockDev.BlockLayer.ReadFrom | kernel/blockdev.c:216-305 | succeeds exactly when the request is in range and every driver call succeeded, so while the driver answers exactly when it is in range; success delivers bytes [Lba*512, (Lba+Count)*512) of the disk and touches nothing else; every driver call asks for 1 to MaxCount native sectors inside a device of known size; the loops terminate |
| BlockDev.BlockLayer.ReadWhole | kernel/blockdev.c:245-259 | the 512-byte loop: chunks of MaxCount concatenate to the flat bytes |
| BlockDev.BlockLayer.ReadRatio | kernel/blockdev.c:261-304 | the loop for 1024- to 4096-byte sectors: whole native sectors and bounced ragged ends concatenate to the flat bytes |
| BlockDev.BlockLayer.ReadStep | kernel/blockdev.c:262-301 | one turn of that loop delivers 1..Count sectors of 512 bytes with one good driver call |
| BlockDev.BlockLayer.ReadBounced | kernel/blockdev.c:281-300 | a ragged end through the bounce buffer delivers the requested part of one native sector |
| BlockDev.NativeInside | kernel/blockdev.c:216-305 | a request inside the device in 512-byte units stays inside it in native sectors |
| BlockDev.BlockLayer.Find | kernel/blockdev.c:140-154 | finds the device of that name exactly when there is one |
| BlockDev.BlockLayer.AddDevice | kernel/blockdev.c:51-84 | the exact conditions of refusal; a new entry is appended with its defaults, no entry changes, and names stay pairwise distinct |
| BlockDev.BlockLayer.RegisterNext | kernel/blockdev.c:98-128 | appends a device under the lowest number below 100 whose name is free, with the sector size, sector count and limit given, online; fails only when the registry is full, the arguments are bad or all hundred names are taken, and then changes nothing |
| BlockDev.NumberFollows | kernel/blockdev.c:98-128 | a prefix of up to 11 characters is followed by the decimal number |
| BlockDev.AcceptedInside | kernel/blockdev.c:216-243 | on an online device of known size a request is accepted if and only if it ends inside the device's bytes, native sectors times their size |
| BlockDev.BlockLayer.Remove | kernel/blockdev.c:130-138 | only clears the online flag, so the name is never used again |
| FatFormat.Geometry.ChainPrefix | kernel/fat32.c:99-121 | a chain that reaches position j reaches every earlier one |
| FatFormat.Geometry.PieceIsFile | kernel/fat32.c:347-364 | a stretch of bytes inside one cluster is the file's bytes at the matching offset |
| FatFormat.Geometry.ByteInCluster | kernel/fat32.c:93-121 | byte r of a file's i-th cluster c is byte r of sector StartLba + FirstData + (c-2)*SectorsPerCluster |
| FatFormat.Geometry.ConsecutiveByte | kernel/fat32.c:93-121 | a file whose clusters follow one another is one stretch of the disk: byte k is k bytes after the first cluster's first |
| FatFormat.Geometry.ConsecutiveBytes | kernel/fat32.c:314-381 | so what was read of it equals that stretch |
| FatFormat.Geometry.ConsecutiveSlots | kernel/fat32.c:185-204 | and the slots of such a directory are its 32-byte pieces |
| FatFormat.Geometry.SlotOfCluster | kernel/fat32.c:196-204 | slot r of a cluster is the r-th 32 bytes from its first sector on |
| FatLayout.BootRead | kernel/fat32.c:22-50 | a signed boot sector written field by field is accepted exactly when its values make sense, and decodes to SectorsPerCluster, ReservedSectors and FatCount*FatSize in 512-byte sectors and the root cluster |
| FatLayout.FatEntryRead | kernel/fat32.c:99-115 | four bytes written little-endian at 4*cluster in the FAT are read back without their top four bits |
| FatLayout.ChainRead | kernel/fat32.c:99-121 | clusters linked in the FAT one after the other, with an end mark after the last, are walked in that order and end there |
| FatLayout.FileRead | kernel/fat32.c:93-121 | data written cluster by cluster along such a chain is what the file holds |
| FatLayout.SlotsRead | kernel/fat32.c:185-204 | a directory along such a chain has the slots of its clusters, in order, at their places on the disk |
| FatFormat.Geometry.CompleteReadLength | kernel/fat32.c:314-381 | a read that nothing interrupted has exactly the length min(wanted, bytes left on the chain) |
| FatVolume.BootSectorSpc | kernel/fat32.c:22-50 | an accepted boot sector decodes to 1..1024 sectors of 512 bytes per cluster, with no 16-bit wrap-around |
| FatVolume.Volume.Mount | kernel/fat32.c:52-91 | null exactly when fewer than two pages are free, the boot sector cannot be read or it is not valid, and a boot sector on the device can be read while the driver answers; then both pages are given back; otherwise the volume holds two fresh pages and the decoded geometry |
| FatVolume.Volume.SimpleHealthy | kernel/blockdev.c:216-243 | on an online device of unknown size every chain is healthy while the driver answers |
| FatVolume.Volume.AllocPair | kernel/fat32.c:55-66 | fails exactly when fewer than two pages are free, and then keeps none |
| FatVolume.ClusterAddress | kernel/fat32.c:93-97 | no sector address formed for a valid cluster leaves 64 bits |
| FatVolume.Volume.NextCluster | kernel/fat32.c:99-115 | the one-sector FAT cache always holds what the disk holds, so a valid answer is the chain's next cluster whatever was read before; an unreadable FAT sector shows as an end of chain; it is readable if it is on the device and the driver answers |
| FatVolume.Volume.Seek | kernel/fat32.c:325-341 | walking from the cursor reaches the same cluster as walking from the file's start, and the number of steps saved is exactly the cursor's |
| FatVolume.Volume.ReadPiece | kernel/fat32.c:347-364 | one pass copies 1 or more bytes of one cluster and no other byte of the output |
| FatVolume.Volume.ReadChain | kernel/fat32.c:325-381 | the bytes delivered are the file's bytes at that offset under any failures, and only the end of the chain ends them early when nothing failed; nothing fails on a healthy chain |
| FatVolume.Volume.ReadAt | kernel/fat32.c:314-381 | FatReadAt in every cache state left by earlier calls and under every pattern of read failures: a correct prefix of the file at the offset, cut at Size; complete when no read failed, and none fails if the driver answers from now on and the device holds every cluster of the chain; nothing outside it is written; cache and cursor stay in agreement with the disk; never more than asked for, all of it when the chain covers it; of a plain file in consecutive clusters it is one stretch of the disk |
| FatVolume.Volume.ReadInFull | kernel/fat32.c:314-381 | a read that only the file or its chain can cut short delivers min(length, size - offset) bytes when the chain covers them |
| FatVolume.Volume.InOneStretch | kernel/fat32.c:93-97 | what was read from consecutive clusters is the disk's bytes from the first cluster's address on |
| FatVolume.Volume.ReadSequentially | kernel/fat32.c:330-378 | reading a file from its start in pieces of any sizes costs in total no more chain steps than the chain position reached; without a failed read, and so on a healthy chain, it reads up to the sum of the sizes, the file's size or the end of the chain |
| FatVolume.Volume.ReadNext | kernel/fat32.c:314-381 | one piece of such a run continues exactly where the previous one stopped, pays only for the clusters it moves over, and is complete when no read fails |
| FatFormat.FoldAppend | kernel/fat32.c:185-279 | scanning a directory sector by sector and cluster by cluster is one left fold over its flat slots |
| FatFormat.FoldShift | kernel/fat32.c:185-279 | what was reported earlier has no influence on what later slots report |
| FatFormat.FoldStopped | kernel/fat32.c:269-271 | a callback that stops the listing cuts the full listing right after the first entry it stops at |
| FatFormat.StoppedScan | kernel/fat32.c:269-312 | a scan of any number of slots with a stopping callback delivers a prefix of the full listing, stopped by its last entry or not at all |
| FatFormat.Geometry.SlotInSector | kernel/fat32.c:198-204 | slot k of a cluster is the k-th 32 bytes of its sectors |
| FatVolume.Volume.Checksum | kernel/fat32.c:123-133 | the rotate-and-add loop computes the checksum of the short name |
| FatLayout.ChecksumOfReadme | kernel/fat32.c:123-133 | the checksum of "README  TXT" is 0x73 |
| FatVolume.Volume.BuildShortName | kernel/fat32.c:157-182 | the string left in the name buffer is the 8.3 name with the case flags applied (pinned by `FatLayout.ShortReported`) |
| FatLayout.FieldRead | kernel/fat32.c:157-182 | a space-padded field is read up to its padding, lowered as its flag says, with 0x05 in front for 0xE5 |
| FatLayout.ShortNameRead | kernel/fat32.c:157-182 | the name of a written short entry is its base, and "." and its extension if it has one, each lowered by its own flag |
| FatLayout.ShortReported | kernel/fat32.c:206-271 | such an entry is reported once, with that name, its attributes, size and cluster, unless a long name with its checksum is waiting |
| FatLayout.ShortListing | kernel/fat32.c:185-279 | a directory of short entries and an end mark lists exactly them, in order, whatever lies behind the mark |
| FatLayout.DirectoryListed | kernel/fat32.c:185-279 | the same for a directory on the disk |
| FatLayout.NotReported | kernel/fat32.c:206-268 | deleted entries, labels and the two dot entries are not reported, and drop a waiting long name |
| FatVolume.Volume.BuildLongName | kernel/fat32.c:242-254 | the string left in the name buffer is the collected units up to a terminator |
| FatVolume.Volume.VisitLongSlot | kernel/fat32.c:215-235 | the in-place unit buffer and its three locals stand for the same long-name state as the fold's |
| FatVolume.Volume.Visit | kernel/fat32.c:206-271 | one slot changes buffers, locals and reported entries as one step of the fold does, whatever the static buffers held |
| FatVolume.Volume.ListDir | kernel/fat32.c:185-279 | FatListDir reports exactly the fold over the slots it saw, and all slots of the chain when no read failed; the status is an error exactly when a directory sector could not be read, and a read failed exactly when that or a FAT sector was unreadable; an unreadable FAT sector ends the listing after the cluster it was needed for, with a status of success; on a healthy chain, known before the call, it is complete; a cyclic chain ends at the cluster limit; static buffers left by earlier calls are unobservable |
| FatVolume.UnreportedFailure | kernel/fat32.c:185-279 | a directory of one entry on a disk whose second read, one of the FAT, fails: success, and no entry |
| FatFormat.LookupIsFirstMatch | kernel/fat32.c:287-312 | stopping the listing at a match finds the first match of the complete listing |
| FatVolume.Volume.CompareNames | kernel/fat32.c:144-155 | the comparison loop decides equality up to ASCII case |
| FatVolume.Volume.Lookup | kernel/fat32.c:301-312 | a hit is the first match of the directory under any read failures; without failures, and so on a healthy chain, a miss means there is none |
| FatLongNames.SlotUnitAt | kernel/fat32.c:227-230 | the thirteen unit offsets read back what the encoder put there |
| FatLongNames.SlotsFold | kernel/fat32.c:215-235 | descending slots, from any earlier state, collect exactly the name's units |
| FatLongNames.DecodeName | kernel/fat32.c:243-254 | the collected units spell the name |
| FatLongNames.RoundTrip | kernel/fat32.c:185-279 | one encoded file, after any scan state, is reported as one entry with its name, attributes, size and cluster |
| FatLongNames.DirectoryRoundTrip | kernel/fat32.c:185-279 | a directory of encoded files lists exactly its files, in order |
| FatLongNames.ReportedOnce | kernel/fat32.c:185-279 | an encoded file between arbitrary other slots is reported exactly once and disturbs nothing around it |
| FatLongNames.ListingRoundTrip | kernel/fat32.c:185-279 | the same on disk: a chain with encoded files, an end marker and anything after it lists exactly the files |
| FatLongNames.MissingSlot | kernel/fat32.c:215-254 | slot numbers are not checked for gaps: whichever slots below the last are missing, the entry is reported with its name cut before the lowest missing slot |
| FatLongNames.OwnNameIff | kernel/fat32.c:215-254 | an entry whose last slot is present is reported under its own name if and only if no slot is missing |
| FatLongNames.MissingFirstSlot | kernel/fat32.c:215-254 | "fourteen chars" without its slot 1 is reported as the empty string |
| Paths.SplitClean | kernel/fs.c:197-249 | whatever the input, the component stack holds at most its maximum of names that are neither empty, dot names, too long nor contain separators |
| Paths.UpAgain | kernel/fs.c:215-249 | a name and ".." after it leave the names before as they were |
| Paths.DotDotDrops | kernel/fs.c:240-245 | ".." drops the last name, and nothing in the root |
| Paths.TooMuch | kernel/fs.c:215-238 | a longer name is cut at 255 characters, and a name after the 128th is dropped |
| Paths.LeadingSeparator | kernel/fs.c:215-222 | separators in front do not matter |
| Paths.VolumePrefix | kernel/fs.c:251-294 | "name:path" starts at the root of the first volume of that name in any case |
| Paths.NoSuchVolume | kernel/fs.c:251-270 | a name before the colon that no volume has is "unsupported" if a partition has it, and "no volume" otherwise |
| Paths.NoPrefix | kernel/fs.c:251-294 | without a volume name a path starts at the root of the current volume if it starts with a separator, and in the current directory otherwise |
| Paths.CaseOnly | kernel/fat32.c:144-155 | names are equal exactly when they have the same characters but for the case of ASCII letters |
| Paths.WalkAlong | kernel/fs.c:297-348 | names that are found one in the other, from a directory on, lead to the last one found |
| Paths.WalkStops | kernel/fs.c:316-326 | behind a file a further name is "not a directory"; a name that is not in the directory reached is "not found" |
| Paths.SplitAppend | kernel/fs.c:215-249 | splitting at a separator is splitting one part after the other |
| Paths.SplitFullText | kernel/fs.c:215-249 | the printed form of a clean list of names splits back to that list |
| Paths.SplitSize | kernel/fs.c:215-249 | splitting never makes more text than it was given |
| Paths.PrintParse | kernel/fs.c:215-348 | the text FsResolve prints splits back to its names if and only if it has at most 511 characters |
| Paths.LongPathIsLost | kernel/fs.c:215-348 | three names of 200 characters do not come back |
| Paths.WalkAgain | kernel/fs.c:297-348 | walking the names that were found again reaches the same node with the same names |
| Paths.WalkPath | kernel/fs.c:297-348 | the path of the node reached is the printed list of names found |
| Paths.DotAfterChdir | kernel/fs.c:374-391 | after a successful FsChdir whose path fits, FsResolve(".") gives the same volume, entry and path |
| Paths.DotDotParses | kernel/fs.c:251-294 | in the directory just entered, ".." parses to all names of its path but the last |
| Paths.DotDotAfterChdir | kernel/fs.c:374-391 | so FsResolve("..") gives the directory in which the one just entered was found |
| Paths.DotParsesBack | kernel/fs.c:251-294 | "." parses back to the directory entered if and only if its canonical path has at most 511 characters |
| Paths.DotResolvesBack | kernel/fs.c:297-391 | after FsChdir, FsResolve(".") gives what the input gave if and only if the canonical path fits, on a volume where different paths lead to different directories |
| FileSystem.FileSys.SplitInto | kernel/fs.c:215-249 | the loop over the input computes the recursive split, on top of what the stack held |
| FileSystem.FileSys.ParseInput | kernel/fs.c:251-294 | volume and component stack are those of the parser, with the exact error statuses |
| FileSystem.FileSys.WalkComponents | kernel/fs.c:316-345 | the loop over FatLookup reaches the node the disk defines, and no read fails if the device holds the directories on the way and the driver answers |
| FileSystem.FileSys.ResolvePath | kernel/fs.c:297-348 | a success is the node the disk's contents define under any read failures; without failures the status is exact, and none happens if the driver answers and the device holds the directories looked into; the current directory is untouched |
| FileSystem.FileSys.ChangeDir | kernel/fs.c:374-391 | moves to the directory resolved, or changes nothing; the exact status without failures |
| FileSystem.FileSys.ChangeDirThenDot | kernel/fs.c:297-391 | end to end: what is entered is the directory the input names, and resolving "." afterwards gives it back, through the disk, under any read failures; surely so if resolving the input cannot fail to read |
| FileSystem.FileSys.ChangeDirThenUp | kernel/fs.c:297-391 | end to end: FsChdir into a directory whose path fits and then FsChdir("..") arrives in the directory above it, through the disk, under any read failures that let the second one succeed, and surely so when no read failed |
| FileSystem.FileSys.CanResolveDot | kernel/fs.c:297-391 | resolving "." after that looks into the same directories, so it cannot fail to read either |
| Mounting.FatPartMounts | kernel/part.c:67-100 | a partition recorded as FAT32 has a boot sector FatMount accepts, whatever reads failed while it was probed |
| Mounting.VolumeNamesDistinct | kernel/fs.c:76-120 | no partition is mounted twice and no two volumes have the same name |
| Mounting.MountsSurvive | kernel/fs.c:76-120 | new partitions, new devices and removed devices leave the mounted volumes as they are |
| Mounting.MountTable.VolumeNext | kernel/fs.c:33-54 | a slot for the next volume, except when the table is full or a page for it is needed and none is free; the pages it takes |
| Mounting.MountTable.TryMount | kernel/fs.c:95-100 | FatMount of a FAT32 partition fails exactly when fewer than two pages are free or its boot sector cannot be read; a volume it returns shares no buffer with the others |
| Mounting.MountTable.MountNext | kernel/fs.c:81-111 | one turn moves the cursor by one and mounts the partition it was on if and only if that is FAT32, there was room for it before the turn (a slot or a page for one, and two pages for its buffers) and its boot sector could be read, which it can while the driver answers and the devices are online |
| Mounting.MountTable.MountNew | kernel/fs.c:76-120 | every new partition is looked at, once, unless room runs out, and new volumes are partitions not looked at before; unless a read failed or there is no room left, they are exactly the FAT32 ones among those, in order, named and decoded after their partition; while there is room a failed read costs at most one volume; without room nothing is mounted; the first volume becomes the current one |
| Mounting.StaysUnmounted | kernel/fs.c:81-111 | a partition the cursor has passed without mounting it is in no later table |
| Mounting.RoomComesTooLate | kernel/fs.c:81-111 | a FAT32 partition is looked at while no page is free; with all pages given back there is room, and mounting again does not mount it |
| Mounting.Scan | kernel/fs.c:134-138 | scanning a device beside mounted volumes keeps them and touches no other device's partitions; unless a read failed or the table is full, the table gains exactly what the device's own table defines |
| Mounting.ScanAll | kernel/fs.c:122-127 | the loop over the devices: every device yet to be scanned is, and all but as many as reads failed have exactly the partitions of their own tables, unless the partition table is full |
| Mounting.MountDevice | kernel/fs.c:134-140 | FsMountDevice: unless a read failed or there was no room, the partitions gained are exactly those of the device, exactly the FAT32 ones not looked at before are mounted, and nothing mounted before changes; only lack of room can interfere if, before the call, the driver answers and the device holds what its table names |
| Mounting.Init | kernel/fs.c:122-132 | FsInit: unless a read failed or there was no room, the partitions gained are those of every device not scanned before, in order, and all FAT32 ones are mounted; a failed read stops nothing: unless the table is full every device is scanned, and at most as many devices, or volumes while there is room, are incomplete or missing as reads failed; only lack of room can interfere if, before the call, the driver answers, all devices are online and hold what their tables name; always under pairwise distinct names |
| Mounting.MountedResolve | kernel/fs.c:251-348 | mounted volumes whose addresses fit satisfy everything path resolution asks of its volumes: own buffers, shared statics, caches in agreement with the disk |
| Mounting.OpenFileSystem | kernel/fs.c:122-132 | from registered devices to resolvable paths: FsInit on empty tables, and the file system over the volumes it mounts; with answering drivers and complete disks every partition's file system is exact |
| Nvme.SlotNext | kernel/nvme.c:109-130 | advancing an index and flipping the phase on a wrap is the slot and phase of the next unbounded index |
| Nvme.StampedFields | kernel/nvme.c:109-110 | the identifier is the upper half of the first word; opcode and flags stay the caller's, and so does everything else |
| Nvme.QueuePair.DeviceFetch | kernel/nvme.c:106-134 | a fetch by the device, between any two host steps, keeps both rings in agreement with the history |
| Nvme.QueuePair.DevicePost | kernel/nvme.c:106-134 | a posted completion turns exactly its own slot from stale to fresh |
| Nvme.QueuePair.Enqueue | kernel/nvme.c:108-114 | stamps the identifier, writes the command into a free slot and rings the doorbell, with the device running in every gap |
| Nvme.QueuePair.IdentifiersDiffer | kernel/nvme.c:106-134 | the i-th command carries the number i + 1 in 16 bits, so no two commands outstanding have the same one |
| Nvme.QueuePair.PhaseTurned | kernel/nvme.c:116-120 | the phase bit at the head matches exactly when the completion awaited has been posted: a stale slot never matches |
| Nvme.QueuePair.Poll | kernel/nvme.c:116-133 | a status other than a timeout is the answer to the oldest command whose completion has not been taken; a timeout is returned exactly when the device has not posted that completion by the last poll |
| Nvme.QueuePair.Submit | kernel/nvme.c:106-164 | over any number of ring wraps and any interleaving, a call times out exactly when the completion it waits for is not posted by its last poll; otherwise it returns the status of the command submitted as many calls earlier as there were timeouts before it, its own exactly when there were none |
| Nvme.QueuePair.IdleInTime | kernel/nvme.c:106-134 | with nothing outstanding, whether a completion comes in time depends on this call's device steps alone |
| Nvme.QueuePair.SubmitIdle | kernel/nvme.c:136-164 | with nothing outstanding, a call returns its own status, or a timeout exactly when the device is not prompt |
| Nvme.QueuePair.SubmitAll | kernel/nvme.c:136-164 | the i-th call of a run returns the i-th command's status, and times out exactly when the device is not prompt then |
| Nvme.TimeoutShifts | kernel/nvme.c:106-164 | a run of two calls: the first times out, and the second returns the first command's status 5 where its own is 6 |
| Keyboard.NextSlotFree | kernel/keyboard.c:90-101 | the next slot is the oldest key's exactly when 255 keys are pending |
| Keyboard.KeyRing.PushChar | kernel/keyboard.c:90-101 | a key is refused exactly when 255 are pending, and stored in order otherwise |
| Keyboard.KeyRing.GetKey | kernel/keyboard.c:223-233 | with interrupts between any two of its steps, the reader hands out the oldest accepted key: consumed keys are always a prefix of accepted keys |
| PartitionTables.GptEntryInSector | kernel/part.c:206-212 | entry e of table sector s, read out of that sector, is entry s*PerSector+e of the table |
| PartitionTables.GptFlat | kernel/part.c:197-212 | sector and entry loops together address one flat array of entries |
| PartitionTables.SectorStep | kernel/part.c:198-212 | the outer loop reads a sector exactly when its first entry is below the entry count |
| PartitionTables.GptPartsSound | kernel/part.c:201-245 | every partition listed comes from its own used entry, numbered index+1, each index at most once and in order |
| PartitionTables.GptPartsComplete | kernel/part.c:201-245 | every entry with a nonzero type and First <= Last is listed |
| PartitionTables.CapIsCut | kernel/part.c:276-308 | the cap of 4096 links can only cut the EBR walk short |
| PartitionTables.CapIsEnough | kernel/part.c:276-308 | it cuts nothing when the chain has at most 4096 links |
| PartitionTables.EbrLink | kernel/part.c:281-307 | every link leads to a strictly higher address below ExtStart + 2^32, which is why the walk ends |
| PartitionLayout.EntryRead | kernel/part.c:262-266 | kind, start and count written little-endian at 4, 8 and 12 of an entry are read back |
| PartitionLayout.LinkRead | kernel/part.c:281-307 | an EBR written with its own partition at 446 and the next EBR's distance from the chain's start at 462 is read as that partition and that link |
| PartitionLayout.ChainRead | kernel/part.c:276-308 | a chain of such EBRs is listed in order, with every start relative to its own EBR, in 512-byte sectors |
| PartitionLayout.PrimaryRead | kernel/part.c:262-322 | one entry of the MBR is nothing, its own partition, or the chain behind it |
| PartitionLayout.MbrRead | kernel/part.c:251-325 | four entries written little-endian from 446 on, with the chains behind the extended ones, are listed as written: start and count times the ratio, primary ones under their place, logical ones from 5 on |
| PartitionLayout.MbrDisk | kernel/part.c:327-388 | the same for a whole disk without a protective entry |
| PartitionLayout.HeaderRead | kernel/part.c:181-196 | a GPT header written field by field is read back |
| PartitionLayout.GptEntryRead | kernel/part.c:214-245 | an entry with type, First and Last is listed under its index + 1, from First on, with Last - First + 1 sectors |
| PartitionLayout.GptRead | kernel/part.c:181-249 | a written table lists its used entries in order |
| PartitionLayout.GptDisk | kernel/part.c:327-388 | the same for a whole disk with a protective entry in any of its four places |
| PartitionLayout.Signatures | kernel/part.c:67-93 | the bytes of each signature and the file system they mean |
| PartitionLayout.ExtMagic | kernel/part.c:67-100 | without a known boot sector, ext is recognised by 53 EF at byte 1080 of the partition, and by nothing else |
| PartitionLayout.NativeSectorIs | kernel/part.c:27-31 | a native sector is that block of the disk |
| Partitions.PartNameInjective | kernel/part.c:102-129 | device name and number can be read back from a partition name |
| PartitionLayout.NameOfPartition | kernel/part.c:102-129 | partition 12 of "nvme0" is "nvme0p12" |
| Partitions.NamesDistinct | kernel/part.c:102-163 | in every reachable state partition names are pairwise distinct and fit their 24 bytes |
| Partitions.TableSurvives | kernel/blockdev.c:51-138 | registering and removing devices keeps the table in order |
| Partitions.PartTable.MakeName | kernel/part.c:102-129 | the digit loops write device name, 'p' and the decimal number |
| Partitions.PartTable.ProbeFs | kernel/part.c:67-100 | the file system is the one the partition's sectors define, in the order the signatures are tested, sectors past the end of the disk saying nothing; a failed driver call can only leave it unknown |
| Partitions.PartTable.AddPart | kernel/part.c:131-163 | appends one named and probed entry, exact unless a driver call failed, or fails because the table or memory is full and changes no entry |
| Partitions.PartTable.AddGpt | kernel/part.c:233-241 | the type GUID stored after the probe is still the one of the entry being read |
| Partitions.PartTable.ScanGptSector | kernel/part.c:206-245 | the entries of one table sector are visited once each, up to the entry count |
| Partitions.PartTable.ScanGpt | kernel/part.c:181-249 | always the listing of a prefix of the entry table; of all of it unless a sector could not be read or the table filled up; every sector can be read if the device holds it and the driver answers |
| Partitions.PartTable.ScanLink | kernel/part.c:276-308 | one EBR is decoded before adding its partition overwrites the shared sector buffer |
| Partitions.PartTable.ChainTurn | kernel/part.c:276-308 | one turn of the loop takes one link off the chain walk that is left |
| Partitions.PartTable.ScanChain | kernel/part.c:272-311 | logical partitions are numbered consecutively along the chain, which is the pure chain walk cut at 4096 links; no link is unreadable if the device holds them and the driver answers |
| Partitions.PartTable.ScanPrimary | kernel/part.c:262-322 | one primary entry adds its own partition or its chain, with numbers no other entry has |
| Partitions.PartTable.ScanMbr | kernel/part.c:251-325 | numbers are distinct whatever fails; unless something was cut short, the partitions are those the MBR and its chains define; an unreadable link cuts off its own chain only, so unless the table is full every primary entry brings its partition or its chain, and at most as many chains are cut off as reads failed |
| PartitionTables.NothingCut | kernel/part.c:251-325 | without a cut-off chain that is what the MBR defines |
| Partitions.PartTable.PartScanDevice | kernel/part.c:327-388 | a device is scanned at most once; the table only grows and stays in order; unless cut short by a read failure or a full table, the new entries are exactly those of the device's own table; without a failed driver call every new entry has the file system its sectors define; if the driver answers and the device holds the sectors its table names, only a full table cuts the scan short |
| AudioRing.RecoveredBelow | kernel/hda.c:660-675 | the recovered play total never runs ahead of the hardware, and lags it by whole laps only |
| AudioRing.RecoveredExact | kernel/hda.c:660-675 | it equals the hardware's true page count if and only if fewer than 32 pages were played between any two readings |
| AudioRing.LapIsLost | kernel/hda.c:660-675 | 32 pages between two readings count as none |
| AudioRing.LapArithmetic | kernel/hda.c:673-674 | one wrapping difference is exact if and only if the total was exact and less than a lap went by |
| AudioRing.Ring.UpdatePosition | kernel/hda.c:660-675 | each update records one reading and keeps every committed page not yet passed intact |
| AudioRing.Ring.NextPage | kernel/hda.c:744-758 | gives no page exactly when 32 committed pages are unplayed; a page given never holds a committed page the hardware has not passed |
| AudioRing.Ring.Put | kernel/hda.c:744-758 | writing through the page handed out leaves all committed, unplayed pages as they were |
| AudioRing.Ring.Commit | kernel/hda.c:760-769 | the contents of the page handed out become the next committed page; it is late if and only if the hardware has come to its place at that moment |
| AudioRing.Ring.HeardIffNoneLate | kernel/hda.c:760-769 | once the hardware has left the last page committed, it has come to every page when it was committed, and found it in place, if and only if none was late |
| AudioRing.Ring.RecordedTo | kernel/hda.c:744-769 | pages the hardware comes to while they are committed are found in place |
| AudioRing.Ring.Start | kernel/hda.c:771-791 | counting starts at zero from the wait loop's end |
| AudioRing.Ring.Played | kernel/hda.c:799-808 | never more than the hardware's true count, and equal to it if and only if the readings were close enough; the value returned is the total, from a reading made in this call |
| AudioRing.LateIsNotHeard | kernel/hda.c:744-808 | a run with close readings: page 1 is committed when the hardware is on page 5, the count says both pages were played, and page 1 was not heard |
| AudioRing.Ring.TakePages | kernel/hda.c:690-714 | succeeds exactly when 33 pages are free below 4 GiB, with 33 distinct pages that were nobody's; otherwise every page taken is given back |
| AudioRing.Ring.ClearPages | kernel/hda.c:717-732 | every page is silent and every descriptor holds its page's full address |
| AudioRing.Ring.Open | kernel/hda.c:677-742 | the exact condition of each status; no page is held after a failure, and pages held before are used again; a successful stream starts empty, with all 32 pages silent and each descriptor holding its page's address, the length 4096 and no flags |
| AudioRing.Ring.Reset | kernel/hda.c:717-742 | pages silenced, descriptors filled and counters at zero |
| Player.Wav.DeliveredMore | kernel/player.c:120-131 | one more padded page extends the frames delivered without a gap |
| Player.Wav.FrameInRead | kernel/player.c:112-123 | frame i of a read is frame FramesDone+i of the data |
| Player.JoinedAt | kernel/player.c:105-131 | when every page but the last is full, frame k of page i is number i*1024 + k |
| Player.Wav.FrameOnDisk | kernel/player.c:105-131 | of a file in consecutive clusters, that frame is the conversion of the BlockAlign bytes which lie DataOffset + (i*1024 + k)*BlockAlign after the file's first byte on the disk |
| Player.FramesLeft | kernel/player.c:105-113 | the byte offset and length of a read stay inside the WAV data, so 32 bits suffice |
| Player.Player.FillPage | kernel/player.c:122-127 | the page holds the converted frames in order and silence after them |
| Player.Player.ReadFrames | kernel/player.c:112-118 | the bytes read are the WAV data from the first frame not yet delivered, all that were asked for unless a read failed or the chain is shorter than the data; no read fails on a healthy chain |
| Player.Player.FeedPage | kernel/player.c:105-131 | one iteration delivers at least one more frame or marks the read as failed; without a failed read, on data the chain covers, it delivers a full page or all that is left; the page is late exactly when the hardware has come to its place as it is committed |
| Player.Player.FeedRing | kernel/player.c:105-137 | the loop ends with the input done or the ring full by a position read in this call, and terminates |
| Player.Player.Poll | kernel/player.c:96-156 | frames in committed pages are exactly the first FramesDone frames in order, even with short reads; every page but the last is full while no read fails and the chain covers the data; a stream that goes on is started, and by a position read in this call it has filled the ring or, out of input, has pages left to play; Finished only when nothing was committed or the count has passed every page, and then every page was heard if and only if none was late; the first 16 pages were committed before the hardware had come to any page (`Prefilled`) |
| Player.Player.Start | kernel/player.c:23-94 | the exact condition of each status; a stream that cannot be opened holds no page and plays nothing; one that goes on is started with the ring filled, or with all its input, by a position read in this call, and reports a failed read only for a failed block read or a chain shorter than the data, and its 32 descriptors point at its pages |
| Player.Player.Stop | kernel/player.c:158-168 | closes the stream and leaves what was delivered as it was |
| Explorer.CompareNames | kernel/ui.c:89-97 | the loop returns the case-insensitive comparison |
| Explorer.NameCmpZero | kernel/ui.c:89-97 | two names compare as equal exactly when they differ in ASCII case only |
| Explorer.NameCmpTransitive | kernel/ui.c:89-97 | "not after" is transitive, strictly if either step is strict |
| Explorer.NameCmpSwap | kernel/ui.c:89-97 | swapping the names negates the result, so any two names are ordered |
| Explorer.FirstDifference | kernel/ui.c:89-97 | the first place where two names differ by more than case decides; a name that ends there comes first |
| Explorer.ExtensionOf | kernel/explorer.c:106-118 | the loop finds the text after the last dot |
| Explorer.ExtensionAfterDot | kernel/explorer.c:106-118 | what follows the last dot is the extension; without a dot there is none |
| Explorer.LessAsymmetric | kernel/explorer.c:256-281 | no two items are less than each other |
| Explorer.LessTransitive | kernel/explorer.c:256-281 | EntryLess is transitive in all three modes |
| Explorer.NotLessTransitive | kernel/explorer.c:256-281 | so is "not less": EntryLess is a strict weak order |
| Explorer.List.EntryLess | kernel/explorer.c:256-281 | the branches compute the order of the current mode |
| Explorer.List.Insert | kernel/explorer.c:291-299 | the shifting loop, in place, permutes the order and extends the gap-sorted stretch by one |
| Explorer.List.Pass | kernel/explorer.c:290-300 | one pass leaves every item not less than the one a gap before it |
| Explorer.OneGapSorts | kernel/explorer.c:290-300 | neighbours in order, in a strict weak order, means all in order |
| Explorer.SortedMeans | kernel/explorer.c:256-281 | in a sorted list folders come before files; by size larger files come first, by type earlier extensions do; what that leaves equal is in order of name |
| Explorer.List.SortEntries | kernel/explorer.c:283-301 | Order becomes a permutation of 0..EntryCount-1 with no item less than an earlier one |
| Explorer.List.ClampScroll | kernel/explorer.c:303-329 | the selection is a row, is on screen, and the list is not scrolled past its end; a valid state is left alone |
| Explorer.List.Select | kernel/explorer.c:401-433 | selects the nearest row, keeps it on screen, and marks for drawing what changed |
| Explorer.List.FindItemByName | kernel/explorer.c:331-342 | the first row with that name, or -1 when there is none |
| Explorer.List.CycleSort | kernel/explorer.c:668-688 | the selected name stays selected if and only if it is not empty, or the list is the root's and no item comes before an unnamed one in the next mode; among items of one name the item itself stays if it comes before the others in that mode, and only if none of them comes before it; the order is sorted for that mode |
| Explorer.List.EmptyIsFirst | kernel/explorer.c:668-688 | in a sorted root list the first row has no name exactly when no item comes before an unnamed one |
| Explorer.List.FirstOfName | kernel/explorer.c:331-342 | the first row of a name in a sorted list holds an item that no other of the name comes before |
| Explorer.EmptyNameIsLost | kernel/explorer.c:668-688 | a folder and a file without a name in the root: the file's selection is lost |
| Explorer.List.ListCallback | kernel/explorer.c:228-254 | stores a shown entry, with its flags, or stops when 1024 are stored |
| Explorer.ShownEntry | kernel/explorer.c:228-254 | an entry with the hidden or the system attribute is left out unless such are wanted; any other keeps its name of up to 119 characters, its size and its kind |
| Explorer.List.LoadDir | kernel/explorer.c:344-399 | the first 1024 shown entries, sorted, with the first row of the focus name selected when there is one and row 0 otherwise, the first row after ".." without a focus, and the selection on screen; the result is the listing's |
| Shell.Tokenise | kernel/shell.c:976-1008 | the C strings the argument pointers stand for in the rewritten buffer are the arguments of the line |
| Shell.Turn | kernel/shell.c:986-1008 | one turn takes one argument off the line and closes the word left open by the turn before |
| Shell.QuotedRoundTrip | kernel/shell.c:986-1008 | up to 16 arguments without quotes, each quoted and separated by spaces, come back exactly |
| Shell.TokeniseQuoted | kernel/shell.c:976-1008 | the same through the in-place parser, for every such line that fits the buffer |
| Shell.PlainRoundTrip | kernel/shell.c:986-1008 | plain words come back, except that with more than 16 the last place holds all the others |
| Shell.PlainWordsKept | kernel/shell.c:986-1008 | for words separated by single spaces: every argument is one of the words if and only if there are at most 16 |
| Shell.WordsKept | kernel/shell.c:986-1008 | for every line: the arguments are its first 16 words if and only if the text left for the sixteenth place is nothing, a quoted word, or a word that ends the line; otherwise the last argument is all of that text |
| Shell.SeventeenthWordSticks | kernel/shell.c:986-1008 | of seventeen words "a" the last argument is "a a" |
| Shell.TrailingSpaceSticks | kernel/shell.c:986-1008 | of sixteen words "a" and a space the last argument is "a " |
| Shell.AppendUInt | kernel/shell.c:242-258 | writes the decimal digits and nothing else |
| Shell.ParseNumber | kernel/shell.c:478-512 | the number modulo 2^32, decimal or hexadecimal, or failure exactly when the text is no number |
| Shell.DecimalNumber | kernel/shell.c:242-258 | decimal digits read back as the number, never as hexadecimal |
| Shell.HexNumber | kernel/shell.c:478-512 | hexadecimal digits in either case after 0x or 0X are read back as the number; 0x alone is none |
| Shell.NumberRoundTrip | kernel/shell.c:478-512 | ParseNumber of what AppendUInt writes is the value modulo 2^32 |
| Shell.LineHistory.Add | kernel/shell.c:1043-1063 | the ring holds the last 16 distinct-in-a-row, nonempty lines |
| Shell.LineHistory.Step | kernel/shell.c:1082-1106 | k steps back show the k-th newest line; the ends of the history stop the walk |
| Common.DecimalInjective | kernel/part.c:115-126 | different numbers have different digits |

## Left out

- Driver code, port and memory-mapped I/O (`ahci.c`, `pci.c`, `xhci.c`, `usbmsc.c`, the controller parts of `hda.c` and
  `nvme.c`): a driver call is an answer of the oracle and bytes of the disk.
- Console, mouse, viewer, drawing and key handling: display code.
- Resolving paths while volumes are being added: `FileSystem.FileSys` works on the sequence of volumes mounted when it
  is opened (`Mounting.OpenFileSystem`).
- `WavParse` and the sample decoding of `WavConvert` (`wav.c`): the header is given (`Player.WavOk` states what it
  promises), and conversion is any function from one frame's bytes to a stereo frame.
- `ClassifyFile` (`explorer.c`): any function from names to kinds.
- Explorer.List.ListCallback: the kind of a file is any function of its name.
- Kernel log, message texts and error codes shown to the user.
- The distinction between the two kinds of driver function (`Legacy` and `Read`) in the device registry, and null names.
- BlockDev.BlockLayer.ReadFrom: the contents are promised for requests that end at or below sector 2^64, since a device of unknown size accepts addresses that wrap around.
- FatVolume.Volume.Mount: a mounted volume is usable only if its geometry fits in 64 bits, which `fat32.c` does not check.
- FatVolume.Volume.ListDir: the callback is a pure function of the entries reported so far, so callbacks with other side effects are not captured.
- FileSystem.FileSys.ResolvePath: an error is exact only when no read failed, because a failed read looks like a missing name; when that is certain before the call is stated.
- Nvme.QueuePair.Submit: the command identifier counter is per queue pair, while the admin and I/O queues share one, so that `Numbered` counts the commands of one pair only; the identifier is never compared with anything.
- Nvme.QueuePair.Submit: more than 62 outstanding timeouts, after which the submission ring overflows, are excluded.
- AudioRing.Ring.NextPage: the statements about pages hold while the play total is below 2^32 - 32 pages.
- AudioRing.Ring.Put: the 32 pages are modelled as one array of stereo frames; cache flushing and the stream registers are not modelled.
- Partitions.PartTable.PartScanDevice: the pages of the partition table are a counter of pages held and one sequence of entries, so page addresses are not captured.
- Explorer.List.LoadDir: resolving the folder is left out; its arguments are what `FatListDir` has to report, which is empty after an error, and whether there was one.
- Player.Player.Start: path resolution and header parsing are left out; its arguments are their results.
