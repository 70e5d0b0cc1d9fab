# VDF: a verified model of the virtual FAT drive

VDF serves a FAT volume that is never stored: every sector is computed on demand from a file tree in
memory. This project models that computation and proves that it is a refinement. On one side stands an
abstract image (`Volume.dfy`): a pure description of each byte of the device in terms of a layout, a list of
extents and the contents of the files. On the other side stand the generators, in the imperative form of
the C code, which write arbitrary slices of that image into a buffer. Around them the project models how a
layout is computed and kept valid, and how a host reads everything back.

| file | models |
|---|---|
| `Bytes.dfy`, `Volume.dfy` | little-endian words, 32-bit wrap-around, output bytes that may be left unwritten; the abstract image |
| `Geometry.dfy` | `createdrive_ext`: sizing tables, root and data area in wrapping arithmetic |
| `Names.dfy`, `LongNames.dfy` | 8.3 names and their numbered tails; long-name slots and checksums |
| `FileTree.dfy`, `TreeGrowth.dfy`, `DriveModel.dfy` | the tree, slot numbering, allocation, range table, lock and dirty state |
| `Directory.dfy`, `DirReader.dfy`, `FatReader.dfy`, `DataReader.dfy`, `BootRecords.dfy`, `BootReader.dfy` | the sector generators |
| `DriveReader.dfy`, `ByteReader.dfy`, `Serving.dfy` | `vdf_read_sectors` and `vdf_read_bytes` across all regions, for a drive object |
| `HostReader.dfy`, `HostDirs.dfy`, `HostScan.dfy`, `Recovery.dfy`, `HostBoot.dfy` | how a host decodes tables, directories and boot records, and that it finds every file again |
| `ListHead.dfy` | the intrusive lists of `list.h` |
| `StreamBuffer.dfy` | the two-thread ring buffer of `vdf_stream.c` |

The central statements:

* `Serving.VdfReadSectors` and `Serving.VdfReadBytes`: for a clean drive, any start and any length inside the
  device, the buffer holds exactly that slice of one image, or the call fails exactly when a touched sector needs
  a file that cannot be read, or leaves the range table exactly when a touched sector holds the last end mark of a
  table and some file is empty. `Serving.DriveServes` is the bridge from the fields of the drive to that image.
* `Recovery.EveryFileRecovered`: whoever has read all bytes and knows the layout finds a file at any depth by going
  from directory to directory through its slots and cluster chains: under its short and long name, with its start,
  size and contents; on FAT16 this is so if and only if its entry in the root lies inside the root region.
  `Recovery.EveryChainRecovered`: the only chain from a file's start cluster is start, ..., end - 1.
  `Recovery.EveryDirectoryScanned`: a scan of a directory finds exactly its entries, in list order, if and only if
  none of them looks deleted, is marked as a label or has more than 256 long-name slots.
* `HostBoot.DriveDescribesItself`: the layout itself is in the bytes, in the master boot record and the boot record,
  if and only if the cluster size fits its byte and a FAT16 root region is as long as its slots need.
* `DriveModel.Drive.Run` and `Serving.RunWhileServing`: over any sequence of operations each one takes its stated
  effect, a locked drive is clean and its tables are those of its current tree, and as long as the operations keep
  the lock count positive the image does not change, except for the serial number in the boot records.
* `Geometry.CreateDriveExt`: an accepted layout is well formed if and only if the input is not one of an
  exactly described family of undersized FAT32 drives. `Geometry.TableRoomExactly` and
  `Recovery.PlannedDriveHasRoom` say when its tables have an entry for every cluster.
* `StreamBuffer.InOrderExactly`: for every buffer and sector size the reader receives a prefix of what was
  downloaded in all interleavings if and only if the advance of each of the two positions is seen as one store.

## How the source is represented

A `vdf_file` pointer is an index into parallel tables, one for each group of the struct's fields; the drive
is a class whose methods reassign them. Output buffers are arrays that methods write in place. A `Cell` is
what an output byte must be; `Any` marks bytes the C code leaves as it found them (the tails of boot sectors
beyond 512 bytes, on FAT16 the two creation-date bytes and the 32-bit sector count of drives of fewer than 65536
sectors, and the end of the label field when spaces of the label are dropped). Callbacks and real files are byte
sequences that either can be read or cannot. Names are bytes in the C locale; a `char` is signed, as on x86.
The result -2 of a read stands for undefined behaviour: the code has left the range table. In the ring buffer memory
is sequentially consistent: stores to the buffer and to `bstart` and `bend` are seen in program order.

## What the code does not do

Some expected properties do not hold of the code. For each the project keeps the code as it is, states when
the property holds and, where that helps, shows an input:

* A short name is unique among its siblings exactly if it comes from the tail search or the plain 8.3 form is free.
  The search is made only for stems of eight characters and names that are not their own 8.3 form
  (`Names.ShortnameUnique`). Two kinds of input fail: shorter stems (`Names.ShortStemCollides`) and files renamed to
  the short name of another entry, because a rename compares long names only (`Names.RenameCollides`).
* A long name is read back exactly if it has fewer than 819 characters, all of them ASCII: nothing limits its
  length, and characters are widened with their sign (`LongNames.LongNameRoundTrip`).
* A virtual file gets the clusters it needs exactly if its size plus a cluster does not exceed 2^32;
  otherwise it gets none (`DriveModel.RoundedExactly`).
* The range table is allocated for the non-empty files but filled with all directories. It overflows, by one entry,
  exactly on FAT32 drives whose root has neither entries nor a label, such as a new drive
  (`FileTree.TableOverflow`, `FileTree.NewDriveOverflows`).
* The comparator of the range table subtracts: it accepts an increasing table exactly if the table spans at most
  2^31 sectors (`FileTree.SortedExactly`).
* A drive label reserves a slot number for a slot that is not written, so a read of the root directory from
  any sector but the first begins one slot early. Every read shows the right bytes if and only if there is no label
  or all slots fit into the first sector (`DirReader.EveryReadMatches`, with the wrong byte in
  `DirReader.WrongByte`).
* `create_file` limits the files in a FAT16 root, not their slots. Entries whose short slot lies behind the root
  region, and everything below them, are lost, and no others (`Recovery.EveryFileRecovered`, with the input
  `Recovery.RootTooSmallExample`).
* Each table has an entry for every cluster exactly if what its last sector has to spare and the clusters that the
  tables take from the estimate together make up for the two reserved entries (`Geometry.TableRoomExactly`,
  with the failing input `Geometry.RoomExample`).
* Advancing `bstart` or `bend` in `vdf_stream.c` takes two stores in the source text. If another thread sees those of
  either position apart, some run delivers wrong bytes, whatever the sizes (`StreamBuffer.SplitEndFails`,
  `StreamBuffer.SplitStartFails`). The comments there say that data is overwritten and silence fed in; the code
  waits instead, and the model follows the code.
* `fat_next_file` reads behind the range table if and only if some file is empty and the request has the last end
  mark of a table in it (`FatReader.ReadSectorFat`, `DriveReader.ReadSectors`, with the input
  `FatReader.EmptyFileExample`).
* A start behind the end of the device is not refused: the number of sectors wraps, and the call writes behind the
  buffer exactly if the request is shorter than that number (`DriveReader.ClipBehindEnd`).
* A virtual file whose size wraps gets an entry in the range table but no clusters, and the table entries of another
  file are then wrong (`Serving.WrappedFileCuts`).
* The code does not escape a first character of 0xe5, which marks a deleted entry, and numbers long-name slots modulo
  256, where 0 ends a directory (`HostScan.ScanFindsEntries`, with the input `HostScan.DeletedExample`).
* A cluster of 256 sectors or more does not fit its byte in the boot record, and rounding the FAT16 root region up to
  whole clusters is not recorded at all, so that a host looks for the clusters in the wrong place
  (`HostBoot.DriveDescribesItself`, `HostBoot.PlanDescribable`, with the input `HostBoot.AlignedRootExample`).
* The label field of the boot record runs over the first byte of the type, unless a space is dropped from the label
  (`HostBoot.TypeTextShown`), and the last two bytes of the boot record are in the wrong order, while those of the
  master boot record are right (`HostBoot.SignatureReversed`, `HostBoot.PartitionDecoded`).

A drive is *well filled* (`Serving.Wellfilled`) when no size wraps and a FAT32 root is not empty. These conditions are
asked of the whole drive, because neither failure is local: a wrapped size spoils the table entries of other files,
and an empty FAT32 root writes behind the range table. What a label and empty files spoil is local, and is a
condition on the request (`Serving.Startable`) or part of its result (`Serving.Outcome`).

## Model

| member | source | states |
|---|---|---|
| Geometry.CreateDriveExt | libvdf/drive.c:132-368 | for `root_dir_cnt` in 0..65535 and less than 2^32 sectors, every accepted layout has its regions in order inside the drive, the largest cluster count that fits and counts within the limits of its type, if and only if the input is not misplaced; with an automatic cluster size always; the outcome, rejection included, is that of planning with the file system and cluster size that the tables or the caller select |
| Geometry.PlanDrive | libvdf/drive.c:234-342 | the wrapping 32-bit computation returns what the plan in unbounded integers returns, acceptance included, except on misplaced inputs, where it always accepts a data area behind the end of the drive |
| Geometry.AcceptedWellFormed | libvdf/drive.c:233-368 | an accepted layout is well formed if and only if the input is not misplaced |
| Geometry.PlanWellFormed | libvdf/drive.c:343-368 | whatever the plan accepts satisfies the order of the regions, the limits, and sectors below data_start + (clusters + 1) * spc |
| Geometry.MisplacedExample | libvdf/drive.c:309-341 | planning a FAT32 drive of ten sectors with clusters of 128 accepts an ill-formed layout |
| Geometry.TableRoom | libvdf/drive.c:247-257 | each table has room for as many entries as there are clusters, and for two more if structures are aligned or a table fills a cluster |
| Geometry.TableRoomExactly | libvdf/drive.c:247-335 | a table has room for clusters + 2 entries if and only if the margin computed from the input, spare entries plus lost clusters, is at least two |
| Geometry.RoomExample | libvdf/drive.c:281-291 | unaligned FAT16 drives with 4352 clusters whose tables hold exactly 4352 entries |
| Geometry.FindSpc | libvdf/drive.c:84-95 | the cluster size of the first row whose limit lies above the drive size, in sectors, at least one |
| Geometry.AutoChoice | libvdf/drive.c:38-61 | automatic cluster sizes are powers of two, and on FAT32 reach 16 sectors only from 8 GiB on |
| Names.FindFileSkip | libvdf/file.c:395-410 | the first entry other than the skipped one whose long or short name matches, ignoring case, or none |
| Names.TailSearch | libvdf/file.c:102-125 | the first attempt whose candidate no other entry has as its short name, or the limit when all are taken |
| Names.CandidatesDistinct | libvdf/file.c:104-120 | the candidates of different attempts differ even when case is ignored, although digits overwrite the buffer and one digit is written twice |
| Names.CalcShortname | libvdf/file.c:75-131 | the short name is the plain 8.3 form or the first free candidate; failure means that all 999,999 candidates are taken |
| Names.FailureNeedsManySiblings | libvdf/file.c:124-125 | the search fails only with at least 999,999 other entries |
| Names.ShortnameUnique | libvdf/file.c:96-130 | for any siblings, the returned name matches none of their short names if and only if it comes from the tail search or the 8.3 form is free |
| Names.NewShortnameUnique | libvdf/file.c:159-168 | for a new file, whose name matches no sibling, an eight-character stem is enough |
| Names.ShortStemCollides | libvdf/file.c:102-130 | a name with a short stem that receives the short name of its sibling |
| Names.RenameCollides | libvdf/file.c:636-646 | renaming a file to the eight-character short name of an entry with a longer name is accepted and repeats that short name |
| Names.RenameHasVictim | libvdf/file.c:102-130 | every ordinary name of more than eight characters gives rise to such an entry |
| LongNames.LongNameRoundTrip | libvdf/read_dir.c:99-121 | ordering the emitted slots by number, joining their 16-bit characters and cutting at the first NUL gives the name back if and only if it has fewer than 819 characters and all are ASCII |
| LongNames.DecodedIsStored | libvdf/read_dir.c:99-121 | what is read back is the sign-extended name below 819 characters, and always shorter than the name from there on |
| LongNames.ScanChecksum | libvdf/read_dir.c:85-96 | the fold over the short name as stored equals the fold over the eleven bytes of the name field |
| LongNames.ScanNameField | libvdf/read_dir.c:129-140 | the eleven bytes written: stem and extension padded with spaces |
| LongNames.ChecksumAgrees | libvdf/read_dir.c:84-111 | the checksum in each long-name slot is the fold over the eleven bytes read from the short slot |
| FileTree.TableSize | libvdf/drive.c:662-673 | the range table has one entry for each non-empty file plus one for each empty directory |
| FileTree.TableOverflow | libvdf/drive.c:662-673 | the table holds as many entries as there are non-empty files, plus one exactly if the drive is FAT32 and its root has neither entries nor a label |
| FileTree.NewDriveOverflows | libvdf/drive.c:662-673 | a new unlabelled FAT32 drive writes one entry into a table of none |
| FileTree.RangesTile | libvdf/file.c:881-902 | the ranges of a placed list tile clusters from 2 on and sectors from the start of the data area on, without gap or overlap |
| FileTree.SortIsIdentity | libvdf/drive.c:634-674 | any permutation that the subtracting comparator accepts as sorted is the table itself |
| FileTree.SortedExactly | libvdf/drive.c:634-636 | the comparator accepts an increasing table as sorted if and only if it spans at most 2^31 sectors |
| FileTree.LayoutDetermined | libvdf/drive.c:638-677 | two layouts of the same tree agree in sizes, placement, range table and ends: a clean drive carries what would be computed again |
| FileTree.SlotsDetermined | libvdf/file.c:840-879 | two numberings of the same tree give every entry the same slots |
| DriveModel.Drive.constructor | libvdf/drive.c:385-395 | a new drive is dirty, unlocked, without label, has the default serial number and holds only its root, which is listed on FAT32 and counts no entries |
| DriveModel.Drive.DirRecalc | libvdf/file.c:840-870 | at every depth each directory's entries get consecutive slots in list order behind its first slot, and its size is 32 bytes a slot |
| DriveModel.Drive.FileRecalcDir | libvdf/file.c:872-879 | an entry takes the next slots of its parent and changes nothing else |
| DriveModel.Drive.FileRecalcOffsize | libvdf/file.c:881-902 | a non-empty file takes the next clusters and sectors; failure means that they reach the end of the drive |
| DriveModel.Drive.Recalc | libvdf/drive.c:638-677 | a recalculation that succeeds leaves exactly the layout of the current tree; it fails when locked or when the files do not fit; file sizes never change |
| DriveModel.Drive.Lock | libvdf/drive.c:582-593 | locking makes the drive clean, or fails because the files do not fit; a lock held already changes no table |
| DriveModel.Drive.Unlock | libvdf/drive.c:595-606 | refuses on an unlocked drive, otherwise releases one lock |
| DriveModel.Drive.SetLabel | libvdf/drive.c:505-526 | refused while locked, otherwise the label is set or removed and the drive becomes dirty |
| DriveModel.Drive.SetSerial | libvdf/drive.c:557-564 | not refused even while locked; changes nothing but the serial number |
| DriveModel.Drive.SetFileName | libvdf/file.c:622-650 | succeeds exactly for an unlocked drive, a non-root file, a valid name and no other entry with that long name; only the names of that file change, and its short name is chosen among the other entries of its directory |
| DriveModel.RenameRepeatsShortname | libvdf/file.c:622-650 | on an unlocked drive, renaming a file to the eight-character short name of another entry leaves both with that short name |
| DriveModel.Drive.SetFileSize | libvdf/file.c:719-738 | succeeds exactly for virtual files of an unlocked drive; sets the size and the clusters rounded in 32 bits |
| DriveModel.RoundedExactly | libvdf/file.c:732-735 | the rounded cluster count is the number of clusters needed if and only if size plus cluster size is at most 2^32; otherwise it is zero |
| DriveModel.Drive.SetFileDate | libvdf/file.c:785-797 | refused while locked, otherwise only the stamp of that file changes |
| DriveModel.Drive.CreateFile | libvdf/file.c:133-211 | refused without any change in the five error cases; otherwise the file is appended to its directory and to the list with the chosen short name; a failed tail search changes the counters only |
| DriveModel.Drive.Perform | libvdf/file.c:133-902 | what each operation does to the lock count, the dirty state, the tree, names and short names, the sizes and the lists, including its refusals |
| DriveModel.Drive.Run | libvdf/drive.c:582-677 | over any sequence of operations each takes its effect; a locked drive is clean and laid out for its current tree; the drive is held exactly while the lock count that the operations alone determine stays positive, and then all tables, the tree and the list are unchanged |
| Directory.DirHoldsEntries | libvdf/read_dir.c:283-296 | in a directory the slots of each entry follow those of the entries before it, behind the dot entries |
| DirReader.FillDirent | libvdf/read_dir.c:76-187 | from any slot of an entry on, at most the wanted number of its slots, including a start inside a long-name group |
| DirReader.ReadSectorDir | libvdf/read_dir.c:252-302 | from any sector, any number of sectors: exactly a slice of the directory's slots, zeros behind them, nothing else touched |
| DirReader.SliceMatches | libvdf/read_dir.c:264-281 | the slice begins at the matching position if and only if the read starts at sector 0 or no label slot is numbered |
| DirReader.SliceUnseen | libvdf/read_dir.c:264-302 | the difference cannot be seen if the directory fits into its first sector |
| DirReader.EveryReadMatches | libvdf/read_dir.c:264-302 | every byte of every read is the right one if and only if no label slot is numbered or all slots fit into the first sector |
| DirReader.WrongByte | libvdf/read_dir.c:264-302 | otherwise the second sector shows the last slot of the directory where the directory is zero |
| DirReader.ReadDirSlice | libvdf/read_dir.c:252-302 | a read that starts at sector 0, or of a directory that is not disturbed, is the matching slice |
| FatReader.FindFileFatEntry | libvdf/fat.c:33-69 | finds the one file that owns a cluster in use, none otherwise, without looking beyond the range table |
| FatReader.ReadSectorFat | libvdf/fat.c:90-252 | from any table sector, any count: exactly that slice of the encoded table, for FAT16 and FAT32, nothing else touched; the range table is left if and only if a file is empty and the slice contains the last end mark |
| FatReader.EmptyFileExample | libvdf/fat.c:71-88 | a file of one cluster next to an empty file: reading the first sector of the table leaves the range table |
| FatReader.EmptyRangeCuts | libvdf/fat.c:197-251 | in a table with a file without clusters between two others the loop stores an end mark for the first cluster of the second |
| Volume.FatEntryInside | libvdf/fat.c:96-141 | inside a file an entry is the next cluster, at its last cluster the end mark |
| DataReader.FindFileSector | libvdf/read_data.c:42-80 | finds the file that owns a sector of the data area, none behind the last file, without looking beyond the range table |
| DataReader.WantFits | libvdf/read_data.c:96-122 | the byte count, clamped by the whole request, never exceeds the sectors of the current file |
| DataReader.DataStep | libvdf/read_data.c:89-147 | each round delivers at least one sector of the data area and reports an unreadable file exactly at its sectors |
| DataReader.ReadSectorData | libvdf/read_data.c:82-149 | exactly a slice of all contents, each padded to whole clusters, then zeros; fails if and only if a sector of the request needs an unreadable file |
| Volume.DataAreaInside | libvdf/read_data.c:89-147 | inside an extent the concatenated data area shows that extent's payload |
| BootReader.ReadSectorFsinfo | libvdf/bootblock.c:123-133 | the 512 bytes with free count and next free cluster |
| BootRecords.WriteBootRecord | libvdf/bootblock.c:156-235 | the fields written one by one, the label after the type it runs over, are the 512 bytes of the record; bytes that are not written are left open |
| BootRecords.WriteMbrRecord | libvdf/bootblock.c:242-276 | the 512 bytes of the master boot record |
| BootRecords.WriteLabel | libvdf/bootblock.c:225-231 | the loop looks at up to twelve characters, drops the spaces among them, pads to twelve counted characters and touches nothing else |
| BootReader.ReadSectorBoot | libvdf/bootblock.c:135-240 | boot record, FSInfo and backup at their sectors, zeros in the other reserved sectors |
| DriveReader.ReadRegion | libvdf/read.c:76-170 | within each region the bytes of the device at that place |
| DriveReader.ReadSectors | libvdf/read.c:40-170 | min(cnt, total - sector) sectors of the image across any number of regions; -1 exactly if one of them needs an unreadable file, and out of the range table exactly if one of them holds the last end mark of a table and a file is empty |
| DriveReader.MarkAvoided | libvdf/fat.c:197-251 | a slice of a table avoids the last end mark if and only if it avoids the sector with its last byte |
| DriveReader.ClipBehindEnd | libvdf/read.c:153-155 | behind the end of the drive the wrapped count is 2^32 less the distance, and exceeds the request if and only if the request is shorter |
| ByteReader.ReadBytes | libvdf/read.c:172-230 | exactly the requested bytes that exist, whatever the alignment of head and tail, unless a sector they touch cannot be read |
| ByteReader.ReadInTwo | libvdf/read.c:40-170 | reading a sectors and then b behind them has the contract of reading a + b at once |
| Serving.CleanDriveServes | libvdf/drive.c:650-675 | the tables that a recalculation leaves on a well-filled drive stand for the volume of its tree, as all generators require |
| Serving.DriveServes | libvdf/read.c:40-170 | a valid, clean and well-filled drive object serves that volume |
| Serving.WrappedFileCuts | libvdf/fat.c:197-251 | a virtual file of 2^32 - 1 bytes placed between two files gets no clusters, and the table entry of the first cluster of the second is an end mark |
| Serving.AllowedWithoutEmpty | libvdf/fat.c:80-84 | on a drive without empty files every request is allowed |
| Serving.StartAnywhere | libvdf/read_dir.c:264-281 | without a label, or with a root directory of one sector, a read may start at any sector |
| Serving.VdfReadSectors | libvdf/read.c:40-170 | the same for a drive object: sectors of the image of its tree, -1 exactly for unreadable files, out of the range table exactly if the request is not allowed |
| Serving.VdfReadBytes | libvdf/read.c:172-230 | the same for bytes |
| Serving.RunWhileServing | libvdf/drive.c:582-677 | any operations on a drive that stays locked leave its volume as it is apart from the two boot records, and exactly as it is if the serial number is the same |
| Serving.ImageApartFromRecords | libvdf/read.c:76-170 | such volumes have the same bytes behind the reserved sectors |
| HostReader.TablesAgree | libvdf/read.c:89-139 | the bytes of the second table equal those of the first |
| HostReader.LinkDecoded | libvdf/fat.c:96-251 | what a host decodes from either copy of the table is the abstract table |
| HostReader.LinkInside | libvdf/fat.c:197-251 | no stored link is a free, bad or end mark except at the last cluster, which carries an end mark |
| HostReader.ChainIsExtent | libvdf/fat.c:90-252 | a path from the start cluster is a complete chain if and only if it is start, ..., end - 1 |
| HostReader.ChainShown | libvdf/read_data.c:82-149 | the clusters of that chain hold the file's payload |
| HostReader.FreeCountConserved | libvdf/bootblock.c:123-133 | free count plus clusters in use is the cluster count, equals the free entries of the table, and the hint is the first free cluster |
| Recovery.CleanAllocation | libvdf/file.c:881-902 | on a clean drive the ranges tile clusters and sectors, their number is the non-empty count, and at most all clusters are used |
| HostDirs.EntryIsFound | libvdf/read_dir.c:122-187 | the short slot of an entry decodes to the file's short name, start cluster and size |
| HostDirs.LongIsFound | libvdf/read_dir.c:97-121 | the slots in front of it give the long name, exactly if it is shorter than 819 characters and ASCII |
| HostScan.ScanFindsEntries | libvdf/read_dir.c:97-187 | scanning a directory behind its dot entries gives the short slots of its entries in list order, as far as they are inside, if and only if no entry begins with 0xe5, carries the label bit or has more than 256 long-name slots |
| HostScan.DeletedExample | libvdf/file.c:58-101 | a name that begins with 0xe5 is accepted, is its own short name and cannot be seen |
| HostScan.DotsFound | libvdf/read_dir.c:257-261 | the first two slots name the directory itself and its parent with their start clusters and size 0 |
| Recovery.EveryFileRecovered | libvdf/read.c:40-230 | a path of directory slots from the root, each the one of the next file on the way, leads to a file with its names, start cluster, size and contents if and only if on FAT16 its root entry lies inside the root region |
| Recovery.EveryDirectoryScanned | libvdf/read.c:40-230 | in the bytes of a drive, scanning a located directory finds exactly its entries, under the same condition; only a FAT16 root can be cut off |
| Recovery.DotsLeadBack | libvdf/read_dir.c:257-261 | the dot entries of a located directory lead to itself and to its parent, where cluster 0 stands for the root |
| Recovery.RootTooSmall | libvdf/file.c:150-157 | in a FAT16 root full of long names the entries from the middle on are not recoverable |
| Recovery.RootTooSmallExample | libvdf/file.c:150-157 | sixteen files with long names in a root of sixteen slots: the last eight are lost |
| Recovery.PlannedDriveHasRoom | libvdf/drive.c:234-342 | the layout of an accepted plan that is aligned, whose tables fill a cluster, or whose margin suffices has a table entry for every cluster in use on any clean drive |
| Recovery.EveryChainRecovered | libvdf/fat.c:90-252 | the only chain from a listed file's start cluster is its clusters in order |
| Recovery.DriveFreeCount | libvdf/drive.c:479-487 | the free count that FSInfo shows plus the allocated clusters is the cluster count, and it counts the free entries |
| Recovery.ReadDevice | libvdf/read.c:172-230 | reading all bytes through `vdf_read_bytes` gives such raw bytes, exactly if the outcome for all sectors is complete: none needs an unreadable file, and no file is empty while another has clusters |
| HostBoot.RecordDescribes | libvdf/bootblock.c:156-235 | decoding the fields of the boot record gives the layout if and only if a cluster has fewer than 256 sectors and the root region is as long as its slots need |
| HostBoot.PartitionDecoded | libvdf/bootblock.c:242-276 | the master boot record gives the first sector of the drive and their number, its type and the right signature |
| HostBoot.DriveDescribesItself | libvdf/bootblock.c:135-276 | a host that starts with nothing but the bytes of a clean drive gets its layout if and only if the same two conditions hold, and on FAT32 the root cluster |
| HostBoot.PlanDescribable | libvdf/drive.c:234-342 | every accepted FAT16 or FAT32 plan fits the fields of the boot record apart from these conditions, the second of which holds if and only if structures are not aligned or the root region is a whole number of clusters long anyway |
| HostBoot.AlignedRootExample | libvdf/drive.c:270-281 | an accepted aligned FAT16 drive with 16 root slots whose data area a host expects one sector too early |
| HostBoot.TypeTextShown | libvdf/bootblock.c:198-231 | the type is shown if and only if there is no label, one of its first twelve characters is a space, or its twelfth happens to be an F |
| HostBoot.SignatureReversed | libvdf/bootblock.c:234-235 | the boot record ends in 0xaa 0x55, the reverse of the signature |
| ListHead.ListAdd | libvdf/list.h:37-46 | the item is prepended and the list stays a ring linked in both directions |
| ListHead.ListAddTail | libvdf/list.h:48-50 | the item is appended |
| ListHead.ListDel | libvdf/list.h:52-60 | the item is removed, the others keep their order, its links are cleared |
| ListHead.ListEmpty | libvdf/list.h:62-64 | true exactly for the empty list |
| ListHead.ListEmptyCareful | libvdf/list.h:66-69 | true exactly for the empty list |
| ListHead.Forward | libvdf/list.h:73-74 | the forward loop visits the items in order |
| ListHead.Backward | libvdf/list.h:76-77 | the backward loop visits them in reverse |
| ListHead.ForeachSafe | libvdf/list.h:79-80 | with deletion of current items every item is visited once, in order, and exactly the others remain |
| ListHead.RunOps | libvdf/list.h:35-60 | any sequence of operations keeps the ring and has the same effect on the abstract sequence |
| StreamBuffer.StepKeeps | examples/vdf_stream.c:73-141 | every step of either thread keeps the invariant if both advances are single stores |
| StreamBuffer.RunIsSafe | examples/vdf_stream.c:73-141 | under every interleaving with single-store advances: delivered bytes are a prefix of the received ones, no silence, at most BUFFCNT - 1 sectors waiting, both emptiness and overflow tests exact |
| StreamBuffer.UnreadUntouched | examples/vdf_stream.c:111-141 | with single-store advances no step overwrites a sector that the reader has not finished |
| StreamBuffer.AccessesInside | examples/vdf_stream.c:96-133 | the next memory access of a thread lies inside the buffer |
| StreamBuffer.SplitEndFails | examples/vdf_stream.c:131-135 | if the two stores to `bend` are seen apart, some run delivers more bytes than were received, for every buffer and sector size |
| StreamBuffer.SplitStartFails | examples/vdf_stream.c:95-98 | if the two stores to `bstart` are seen apart, some run lets the writer lap the reader, for every buffer and sector size |
| StreamBuffer.InOrderExactly | examples/vdf_stream.c:73-141 | all runs deliver a prefix of what was received if and only if both advances are seen as one store |

## Left out

- FAT12 in the generators: the packing of `read_sector_fat` (libvdf/fat.c:120-125, 146-196) does not follow the 12-bit rule, so image and recovery cover FAT16 and FAT32; Geometry covers all three.
- DriveReader.ReadSectors: covers starts up to the end of the device; what happens behind it is `DriveReader.ClipBehindEnd`. Requests of 2^31 sectors and more, whose count does not fit the `int` that is returned (libvdf/read.c:40), are left out, and so are starts inside a labelled root of more than one sector, behind its first sector, where the bytes are wrong (`DirReader.EveryReadMatches`).
- ByteReader.ReadBytes: the same for each of the up to three calls it makes; for counts of 2^32 sectors and more libvdf/read.c:203-209 reads the count modulo 2^32 only.
- Serving.VdfReadSectors: requires a well-filled drive, and of the request the same.
- Serving.VdfReadBytes: the same.
- Serving.CleanDriveServes: requires a well-filled drive.
- Serving.DriveServes: requires a well-filled drive.
- Recovery.ReadDevice: covers devices of fewer than 2^31 sectors, for the same reason.
- Recovery.EveryFileRecovered: also requires a table entry for each cluster in use; `Recovery.PlannedDriveHasRoom` says when the layout guarantees it.
- DriveModel.Drive.Recalc: requires directory sizes within an `int`, fewer than 2^31 sectors and a FAT32 root that is not empty; beyond that the C code overflows, may sort wrongly or writes behind its table.
- DriveModel.Drive.Lock: requires the same of a dirty drive that is not locked, because it recalculates.
- Geometry.CreateDriveExt: excludes an unknown file system together with a chosen cluster size, where the code goes on with uninitialised variables.
- HostBoot.DriveDescribesItself: whether names are read as long names is the host's choice, not in the boot record.
- The reader methods take the tables of the drive as values; one `vdf_file` reached through several pointers is not modelled as aliasing but as one index.
- In the drive model directory entries and the list of all files are sequences of indices; the linked rings are modelled separately in ListHead.
- Deletion, moving, reordering, recreating a drive, `vdf_set_file_attr`, `vdf_set_fat_file_size` and the explicit short-name setter: several of them break the list, tree or cluster-count invariants.
- Real files of 4 GiB and more, whose size the code truncates to 32 bits.
- Timestamps enter as encoded words; `gmtime` is not modelled.
- Sockets, NBD, the transport registry, threads as such, memory exhaustion, errno values and printing.
- `examples/vdf_stream2.c`, which lets the producer overwrite on purpose; liveness of the ring buffer; cluster lists (`ENABLE_CLUSTER_LIST`).
