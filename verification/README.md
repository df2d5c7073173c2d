# Verified models of the NEORV32 software

This project models five pieces of the software that ships with the NEORV32 processor and proves what they are
for. Everything is stated about the model; nothing was executed.

`dafny verify dfyconfig.toml` checks the whole project.

**The 1-Wire search** (`Crc8`, `RomTree`, `OneWire`, `OneWireCases`). A bus is a finite set of 64-bit ROM
numbers. A bit read from the bus is the conjunction of what the listening devices send, first their next bit,
then its complement; a written bit silences the devices that do not have it. The master keeps the source's
global state and runs its do-while loop bit by bit. `RomTree` holds the order theory: the tree of devices,
forks, paths, successors. The main results speak of whole scans: every device once and in order, one device per
family, and a scan that a verification in between does not disturb. The code does not clear
`LastFamilyDiscrepancy` at the start of a search, so plain searches can leave a stale one.
`OneWire.Master.SkipFamily` says what a family skip does from every state that searches can leave: it is right
exactly if the family discrepancy is not stale or the device is the last on the bus, which the master can see
from its own state, and otherwise it goes back; `OneWireCases.StaleSkip` is a bus of three good devices where it
does. The family scan calls the functions in an order that never leaves a stale one. `OWVerify` is proved with
its exact condition: on a bus that also holds devices with a bad CRC it can miss a device whose twin differs in
the last bit only (`OneWireCases.HiddenDevice`). Both scans stop at the first device that the search rejects,
and are complete exactly if there is none.

**Petit FatFs and the sector layer** (`DiskIo`, `Fat`, `FileImage`, `FileWrite`, `Names`, `Directory`, `Mount`,
`MountBytes`, `Paths`, `PetitFat`, `Session`, `ResumeCase`, `Boot`, `BootBytes`). The disk is a sequence of
512-byte sectors behind a card that sends and collects 514-byte blocks. The content of a file is the
concatenation of the sectors of its cluster chain. The file system object keeps no sector buffer, only a
position, a cluster and a sector, and is proved to be a cursor over that content, for all three FAT widths, with
every transfer error possible unless the card is healthy. The configuration (which FAT widths are compiled in)
is a parameter. Directories are searched on whatever disk image there is; where the tables lie on the disk, the
search is a lookup in the list of entries. The layout of a volume, directory entries, paths and executables are
also stated by their bytes (`MountBytes`, `Paths`, `BootBytes`). `Session` has the whole-run results: any
sequence of reads and seeks on any file, open or not, and any sequence of reads, seeks, writes and finishing
calls on a file that can be written, with chains of any length. `Boot` is a client: the boot loader mounting the
card, opening a file and loading the executable in it, and its round trip with the image generator. Directories
are searched with the source's mask for every cluster size, zero included. Reading and writing need a cluster
size that is a power of two, for which the mask is a remainder, and a data area that lies on the disk; mounting
checks neither, and `Mount.TablesOfVolume` and `Mount.FatFitsOfVolume` derive what is needed from the fields of
the boot sector.

`pf_write` rounds the position down to the sector boundary when no write is in progress, but leaves the current
cluster alone. `FileWrite.ResumeSector` shows when this is right: exactly if the position is not in mid-sector
in the first sector of a cluster after the first, or the cluster is linked to itself. `FileWrite.ResumeTooFar`
says where the write goes instead, `FileWrite.ResumeElsewhere` that it goes on as a proper write of another
file, and `ResumeCase.WriteInSecondSector` is a run on a FAT32 card where this overwrites the wrong sector.
`PetitFat.FatFs.PfWrite` and `Session.Run` are stated for the other positions.

**The tiled matrix product and LeNet** (`Gemm`, `Convolution`, `Layers`, `Lenet`). The accelerator is one class,
`Gemm.TileUnit`: a bank of 8x8 accumulators and one command that optionally clears them, adds the product of two
tiles, and optionally stores them. That this is what the hardware does is an assumption. On top of it the tiled
product equals the triple loop, unrolled images turn convolutions into products, padding does not matter, and
the whole inference computes the same function of weights and image on both paths, although the fully connected
layers read one column as eight overlapping ones and the last of them multiplies stale bytes by zero.
`Lenet.NetworkByCells` says what that function is, cell by cell. The sum with the bias wraps as on the target;
products of bytes are proved not to leave 32 bits. The declared `FMAP_A` has 3136 bytes, but the first
convolution writes 4704; the model's buffer is large enough, and `Lenet.DeclaredFmapTooSmall` records the
difference.

**Two cores** (`LockSpec`, `ReservationLock`, `SwapLock`, `Primes`, `Primality`, `PrimesHandOff`). Protocols are
state machines whose steps are single accesses to shared words, by any number of harts and in any order. A
store-conditional succeeds only under a live reservation, may fail under one, and ends all reservations when it
succeeds (RISC-V Unprivileged ISA 20191213, sections 8.2 and 8.4). Both spin locks refine one abstract lock, can
always be released by their holder, and leave every hart a way to get them. `is_prime` squares in 32 bits and
wraps above 65535; it turns out exact for every 32-bit number except 4294967291 (2^32 - 5), which it always
reports as not prime, because no wrapped square ever ends the loop before the number divides itself. `Primality`
proves that this number is prime, from the order of a number modulo any prime divisor it might have. The count
of the two cores is right, and under every fair schedule it is there after 13 rounds.

**XTEA** (`Xtea`). Encryption and decryption loops on 32-bit words, and the block loops over arrays. What a
cycle does is also stated by the bits of its words, literal sums and key indices, which leaves only one cipher.

`Arith` and `Bytes` hold arithmetic and byte order.

## Model

| member | source | states |
|---|---|---|
| `OneWire.Master.OWSearch` | sw/example/demo_onewire/onewire_aux.h:81-198 | One search ends at the device on the path that the last discrepancy fixes, accepts it exactly if CRC and family byte are good, and leaves the deepest fork where 0 was taken; a failure resets the state |
| `OneWire.Master.WalkTree` | sw/example/demo_onewire/onewire_aux.h:113-172 | The bit loop always reaches bit 65 and fills the ROM buffer with a device of the bus, with its discrepancies and running CRC |
| `RomTree.PathIsSuccessor` | sw/example/demo_onewire/onewire_aux.h:125-146 | The device found from the deepest 0-fork of the previous one is its successor: no device lies between the two |
| `RomTree.NoForkIsLast` | sw/example/demo_onewire/onewire_aux.h:181-182 | A device whose path has no fork with 0 taken is the last one in enumeration order |
| `RomTree.PathFromZero` | sw/example/demo_onewire/onewire_aux.h:54-62 | With no discrepancy the search ends at the least device |
| `OneWire.Master.OWFirst` | sw/example/demo_onewire/onewire_aux.h:54-62 | Finds the least device, if it is acceptable |
| `OneWire.Master.OWNext` | sw/example/demo_onewire/onewire_aux.h:69-73 | From a found device: the next larger one, or nothing exactly after the last; the family mark, stale or not, stays what plain searches can leave |
| `OneWire.Master.ScanBus` | sw/example/demo_onewire/main.c:233-268 | The whole scan lists each device up to the first rejected one exactly once, in strictly increasing order, and counts them; all devices are listed exactly if every device has a good CRC and family byte |
| `RomTree.AllReachable` | sw/example/demo_onewire/onewire_aux.h:54-198 | The enumeration is complete exactly if no device is rejected |
| `OneWire.Master.SkipFamily` | sw/example/demo_onewire/onewire_aux.h:269-278 | From any device that searches have found, and with a condition that the master can check before the skip: if 0 was taken where the family discrepancy points, or it is 0, or the device is the last on the bus, the search finds the least device of the next family, or nothing exactly after the last family; otherwise it goes back. On a bus of acceptable devices this is an if-and-only-if |
| `OneWire.Master.ScanFamilies` | sw/example/demo_onewire/onewire_aux.h:269-278 | First, then repeated family skips: the least device of each family, in increasing family order, up to the first one rejected; one device for each family exactly if the least device of every family is acceptable |
| `RomTree.AllFamilies` | sw/example/demo_onewire/onewire_aux.h:269-278 | A list of the least devices of the families up to the first rejected one represents every device exactly if none is rejected |
| `RomTree.StaleSkipGoesBack` | sw/example/demo_onewire/onewire_aux.h:88-94 | A family skip from a stale mark goes back, to the least device that shares the first bits up to the mark |
| `RomTree.MarksKept` | sw/example/demo_onewire/onewire_aux.h:138-146 | A plain search keeps the family mark either right, or at a fork of the family byte where 1 was taken |
| `RomTree.StaleMark` | sw/example/demo_onewire/onewire_aux.h:138-146 | Whether the family discrepancy is that of the device or a stale one can be seen from the ROM buffer alone |
| `OneWireCases.StaleSkip` | sw/example/demo_onewire/onewire_aux.h:269-278 | Three good devices, two of them in the last family: the skip after a plain search finds the same device again |
| `OneWire.Master.FindFamily` | sw/example/demo_onewire/onewire_aux.h:252-263 | On any bus a targeted search comes to the least device of the family, or to its twin in the last bit; if all devices of the family are acceptable it finds the least of them; without the family it comes to some other device; next searches and family skips can go on from there |
| `OneWire.Master.OWVerify` | sw/example/demo_onewire/onewire_aux.h:205-246 | True exactly if the device in the buffer is on the bus and acceptable, and no device differs from it in the last bit only; buffer and search state are as before, so a scan goes on undisturbed |
| `RomTree.NoTwin` | sw/example/demo_onewire/onewire_aux.h:205-246 | Two devices with good CRC never differ in their last bit only, so on a bus of good devices the verification is exact |
| `RomTree.ZeroFamily` | sw/example/demo_onewire/onewire_aux.h:190 | A device with an all-zero family byte is never accepted; for all others the CRC decides |
| `OneWireCases.HiddenDevice` | sw/example/demo_onewire/onewire_aux.h:205-246 | A good device and a twin with a bad CRC: the good device is on the bus and is not verified |
| `OneWire.Master.DoCrc8` | sw/example/demo_onewire/onewire_aux.h:285-292 | One table step of the CRC |
| `Crc8.FoldIsSerial` | sw/example/demo_onewire/onewire_aux.h:14-31 | For every byte sequence the table-driven CRC is the bit-serial CRC with polynomial x^8+x^5+x^4+1 |
| `Crc8.TableIsClock` | sw/example/demo_onewire/onewire_aux.h:14-31 | Each of the 256 table entries is eight clocks of the shift register |
| `Crc8.ZeroIffCheckByte` | sw/example/demo_onewire/onewire_aux.h:285-292 | A sequence folds to zero exactly if its last byte is the CRC of the others |
| `DiskIo.Disk.ReadP` | sw/bootloader/petit_fatfs/diskio.c:152-203 | A successful read returns exactly the requested bytes of the sector and takes all 514 bytes of the block |
| `DiskIo.Disk.WriteStart` | sw/bootloader/petit_fatfs/diskio.c:211-252 | Starts a block with the counter at 512 |
| `DiskIo.Disk.WriteData` | sw/bootloader/petit_fatfs/diskio.c:211-252 | Sends the data up to the end of the sector; counter and received bytes stay in step |
| `DiskIo.Disk.WriteFinish` | sw/bootloader/petit_fatfs/diskio.c:211-252 | The sector becomes the data sent, followed by zeros; no other sector changes |
| `Fat.GetFat` | sw/bootloader/petit_fatfs/pff.c:430-470 | Returns the FAT entry, or 1 after a transfer error |
| `Fat.FatEntryDecodes` | sw/bootloader/petit_fatfs/pff.c:430-470 | For FAT12, FAT16 and FAT32, reading entry i of a packed table gives entry i back, also for 12-bit entries that straddle two sectors |
| `Fat.NoEntry` | sw/bootloader/petit_fatfs/pff.c:430-470 | There is no entry for cluster 0 or 1 or behind the last cluster, and none that can be read from a missing sector |
| `Fat.StraddlingBytes` | sw/bootloader/petit_fatfs/pff.c:444-455 | The two bytes of a straddling entry come from the end of one sector and the start of the next |
| `Fat.ClusterRange` | sw/bootloader/petit_fatfs/pff.c:479-489 | A cluster number maps to a run of sectors inside the data area exactly if it is in range |
| `Fat.ClustersDisjoint` | sw/bootloader/petit_fatfs/pff.c:479-489 | Different clusters share no sector |
| `Mount.CheckFs` | sw/bootloader/petit_fatfs/pff.c:783-802 | Classifies a sector as FAT boot record, other boot record, none, or unreadable |
| `Mount.FindVolume` | sw/bootloader/petit_fatfs/pff.c:819-885 | Finds the volume on the whole disk or in the first partition; the error cases are exact on a healthy disk |
| `Mount.LayoutGeometry` | sw/bootloader/petit_fatfs/pff.c:851-879 | Without wrapping sums the data area follows the FATs and lies inside the volume, cut to whole clusters |
| `Mount.ClustersOfVolume` | sw/bootloader/petit_fatfs/pff.c:851-879 | After mounting, every valid cluster number has its own sectors behind the FATs and inside the volume, and every other number has none |
| `Mount.TablesOfVolume` | sw/bootloader/petit_fatfs/pff.c:851-879 | The volume mounted from a proper boot sector has its data area on the disk, and its root directory too if the boot sector gives it a place |
| `Mount.FatFitsOfVolume` | sw/bootloader/petit_fatfs/pff.c:851-879 | If the FAT area of the boot sector has room for all entries, the whole FAT lies before the data area |
| `PetitFat.FatFs.PfMount` | sw/bootloader/petit_fatfs/pff.c:819-885 | Mounts the layout of a volume found at one of the two places where it may start; on a healthy card the result is exact, errors included; open files are forgotten |
| `MountBytes.StartByBytes` | sw/bootloader/petit_fatfs/pff.c:783-845 | In terms of single bytes: the volume starts at sector 0 if that is a FAT boot sector, else where the first partition entry says |
| `MountBytes.MountByBytes` | sw/bootloader/petit_fatfs/pff.c:846-879 | In terms of single bytes of the boot sector: sectors of all copies of the FAT, 16-bit or 32-bit sizes, cluster count, FAT width, and the places of FAT, root directory and data |
| `MountBytes.NothingToMount` | sw/bootloader/petit_fatfs/pff.c:819-845 | Without a FAT boot sector in one of the two places nothing is mounted |
| `MountBytes.NoClusterSize` | sw/bootloader/petit_fatfs/pff.c:863-869 | A cluster size of zero mounts as FAT12 without clusters, or not at all |
| `MountBytes.OrdinaryCard` | sw/bootloader/petit_fatfs/pff.c:819-879 | A FAT32 card with a partition, two FATs and 8 sectors to a cluster is laid out as it was formatted |
| `FileImage.ChainOfProper` | sw/bootloader/petit_fatfs/pff.c:950-964 | Whatever the FAT holds, every start cluster has a proper chain that is long enough or ends |
| `FileImage.ChainFollowed` | sw/bootloader/petit_fatfs/pff.c:950-964 | The cursor step at sector boundaries follows the sectors of the chain in file order, and fails exactly behind them |
| `FileImage.ContentSlice` | sw/bootloader/petit_fatfs/pff.c:965-967 | Bytes inside a sector of the chain are the matching bytes of the file content |
| `FileImage.LocatedAtCursor` | sw/bootloader/petit_fatfs/pff.c:950-964 | From a proper cursor the boundary step finds the sector of the byte to come, or fails exactly if the chain is too short |
| `FileImage.FollowCluster` | sw/bootloader/petit_fatfs/pff.c:1081-1087 | One link of a seek goes to the next cluster of the file, or fails exactly if there is none |
| `FileImage.BackToCluster` | sw/bootloader/petit_fatfs/pff.c:1072-1076 | The forward seek may start at the current cluster: it is the one of the byte before the cursor |
| `FileImage.ReachByte` | sw/bootloader/petit_fatfs/pff.c:1088-1091 | The sector worked out after a seek is that of the target byte |
| `PetitFat.FatFs.PfRead` | sw/bootloader/petit_fatfs/pff.c:928-975 | Reads exactly the content from the cursor on, cut at the end of the file; moves the cursor by as much; fails exactly if the chain is too short, and then has read all there is |
| `PetitFat.FatFs.PfLseek` | sw/bootloader/petit_fatfs/pff.c:1055-1095 | Moves the cursor to the target or the end of the file, from the current or the first cluster alike; fails exactly if the chain is too short |
| `Session.RunCalls` | sw/bootloader/petit_fatfs/pff.c:928-975 | Any sequence of reads and seeks, on an open file or none, with a chain of any length: on a healthy card the replies are those of a cursor over the content of the file, on any card they are so up to the first failure, which closes the file |
| `Session.Chunked` | sw/bootloader/petit_fatfs/pff.c:928-975 | However reads are cut into chunks, the pieces joined are one range of the file, up to its end or the end of its chain |
| `PetitFat.FatFs.PfWrite` | sw/bootloader/petit_fatfs/pff.c:985-1045 | Replaces exactly the range and zero-fills the rest of the last sector, or, if the chain is too short, as much as fits; keeps every sector outside the file; a call for 0 bytes makes the announced content the content of the disk; a write in progress means wc = 512 - fptr % 512 |
| `FileWrite.OverwriteTwice` | sw/bootloader/petit_fatfs/pff.c:985-1045 | Writing in two pieces is writing once |
| `FileWrite.OverwriteAt` | sw/bootloader/petit_fatfs/pff.c:985-1045 | Each byte after a write: the data in the range, zero up to the end of the last sector, else as before |
| `FileWrite.PieceWritten` | sw/bootloader/petit_fatfs/pff.c:1033-1041 | Streaming a piece into the current sector overwrites that piece of the file |
| `FileWrite.ContentUpdate` | sw/bootloader/petit_fatfs/diskio.c:211-252 | Replacing a sector of the file replaces its 512 bytes of the content and nothing else |
| `FileWrite.TrackKept` | sw/bootloader/petit_fatfs/pff.c:985-1045 | A write to the file changes neither the FAT entries nor the chain of the file |
| `FileWrite.ChainWritable` | sw/bootloader/petit_fatfs/pff.c:985-1045 | A chain of different clusters on a mounted volume lies behind the FAT in distinct sectors |
| `Session.Run` | sw/bootloader/petit_fatfs/pff.c:928-1095 | Any sequence of reads, seeks, writes and finishing calls, each write finished before the next read or seek, from any state of an open or failed file: on a healthy card all results and the file are exact for chains of any length; on any card they are so up to the first call that fails; every sector outside the file and every FAT entry stay as they are |
| `Session.RunWrites` | sw/bootloader/petit_fatfs/pff.c:985-1045 | Any sequence of writes and finishing calls, from any state of an open or failed file: on a healthy card the outcome is exact for chains of any length; on any card, every sector outside the file and every FAT entry stay as they are |
| `Session.OpenedWriting` | sw/bootloader/petit_fatfs/pff.c:894-918 | A file just opened can be written if its clusters are distinct, on a volume whose data lies on the disk and behind the FAT |
| `Session.InkJoined` | sw/bootloader/petit_fatfs/pff.c:985-1045 | Writes without finishing calls between them are one write of all their data |
| `FileWrite.ResumeSector` | sw/bootloader/petit_fatfs/pff.c:1008-1009 | A write that starts in mid-sector resumes in the sector it was in exactly if this is not the first sector of a later cluster, or the cluster is linked to itself |
| `FileWrite.ResumeTooFar` | sw/bootloader/petit_fatfs/pff.c:1008-1025 | Otherwise it goes to the cluster linked from the current one, or gives up if there is none; in the file, that is one cluster too far |
| `FileWrite.ResumeElsewhere` | sw/bootloader/petit_fatfs/pff.c:1008-1025 | From there on it goes on as a proper write of another file: the one that begins with the current cluster, from its second cluster on |
| `ResumeCase.WriteInSecondSector` | sw/bootloader/petit_fatfs/pff.c:1000-1041 | On a FAT32 card, mounted, with its file opened and a seek to byte 513, the steps of a write leave the second sector of the file as it is and overwrite the third |
| `ResumeCase.CardMounts` | sw/bootloader/petit_fatfs/pff.c:819-885 | The volume of that card is what mounting finds with FAT32 compiled in |
| `FileWrite.ResumeKeepsCursor` | sw/bootloader/petit_fatfs/pff.c:1008-1009 | Where it is not the first sector of a later cluster, rounding the position down leaves a proper cursor |
| `Names.CreateName` | sw/bootloader/petit_fatfs/pff.c:651-692 | Cuts the next name from a path: directory form, where the path goes on, and whether it was the last |
| `Names.GetFileName` | sw/bootloader/petit_fatfs/pff.c:701-733 | Prints the name of a directory entry as a terminated string |
| `Names.NameInPath` | sw/bootloader/petit_fatfs/pff.c:651-692 | A proper 8.3 name is cut out whole, in upper case, and the path goes on right behind its terminator |
| `Names.NameRoundTrip` | sw/bootloader/petit_fatfs/pff.c:651-692 | Cutting a proper name and printing it gives the upper-cased name |
| `Names.NamesDistinct` | sw/bootloader/petit_fatfs/pff.c:651-692 | Proper names have the same directory form exactly if they are the same up to case |
| `Paths.UpperLetters` | sw/bootloader/petit_fatfs/pff.c:675-686 | Exactly the letters from a to z become capital ones; characters of the upper half go through the code page first |
| `Paths.LongName` | sw/bootloader/petit_fatfs/pff.c:668-690 | A body of more than eight characters is cut off at eight, and the path goes on in the middle of it |
| `Paths.PrintsKanji` | sw/bootloader/petit_fatfs/pff.c:701-733 | A first byte 0x05 is printed as 0xE5 |
| `Directory.DirObj.DirRewind` | sw/bootloader/petit_fatfs/pff.c:514-534 | Stands at the first entry, or fails exactly if the start cluster is out of range |
| `Directory.DirObj.DirNext` | sw/bootloader/petit_fatfs/pff.c:543-575 | Goes to the next entry, or reports the end of the table, a broken link, or the end of the 16-bit index, whatever the volume |
| `Directory.DirObj.DirFind` | sw/bootloader/petit_fatfs/pff.c:584-607 | Ends on every disk image, truncated ones, cyclic chains and odd cluster sizes included, and returns the first match among the entries it can reach, or the right error |
| `Directory.MaskIsRemainder` | sw/bootloader/petit_fatfs/pff.c:560 | For cluster sizes that are powers of two the mask of the code is the remainder |
| `Paths.StartsClusterByBits` | sw/bootloader/petit_fatfs/pff.c:562 | For every other cluster size it is the bitwise and; a size of zero masks nothing out |
| `Directory.LookupOnDisk` | sw/bootloader/petit_fatfs/pff.c:584-607 | Where data area and root directory lie on the disk, this lookup is the lookup in the table of the directory |
| `Directory.LookupIsFirst` | sw/bootloader/petit_fatfs/pff.c:584-607 | The entry found is the first with the name that is no volume label, with no end mark before it |
| `Paths.LookupExact` | sw/bootloader/petit_fatfs/pff.c:584-607 | With the first place known where a search stops, its result: an entry, the end mark, the end of the table, or entry 65536 |
| `Paths.FixedRoot` | sw/bootloader/petit_fatfs/pff.c:524-533 | Before FAT32 the root directory is a fixed run of sectors, as many as its entries fill |
| `Paths.LinkedRoot` | sw/bootloader/petit_fatfs/pff.c:524-533 | On FAT32 it is a chain from the recorded root cluster |
| `Directory.TableWalks` | sw/bootloader/petit_fatfs/pff.c:543-575 | Whatever the FAT holds, cyclic chains included, the walk visits the sectors of the table in order |
| `Directory.DirObj.FollowPath` | sw/bootloader/petit_fatfs/pff.c:742-774 | Returns, for every disk image, what walking the directory tree along the names of the path returns; a file in the middle means no such file |
| `Paths.PathStartsAt` | sw/bootloader/petit_fatfs/pff.c:751-752 | Leading spaces and one separator are skipped; the path is that of the root exactly if nothing is left |
| `Paths.PathOfParts` | sw/bootloader/petit_fatfs/pff.c:651-692 | A path of proper names with separators is cut into exactly these names |
| `Paths.LeadsResolves` | sw/bootloader/petit_fatfs/pff.c:757-768 | A way down the tree, each entry a directory by its attribute and entered at the cluster of its four bytes, is what the path resolves to |
| `Paths.ResolvesLeads` | sw/bootloader/petit_fatfs/pff.c:757-768 | Conversely, a path that resolves has such a way |
| `PetitFat.FatFs.PfOpen` | sw/bootloader/petit_fatfs/pff.c:894-918 | On any volume, opens the file that the path names, with its recorded cluster and size and the cursor at 0; directories, the root and missing names are refused; the cursor is proper if the data area lies on the disk |
| `Paths.EntryByBytes` | sw/bootloader/petit_fatfs/pff.c:495-507 | The start cluster is two bytes of the entry, on FAT32 four; directory and label are single attribute bits |
| `Paths.OpenedByBytes` | sw/bootloader/petit_fatfs/pff.c:912-915 | An opened file has the start cluster and the size that the bytes of its entry say |
| `Directory.WholeFile` | sw/bootloader/petit_fatfs/pff.c:912-915 | The bytes that can be read of an opened file are as many as its entry says exactly if its chain has all the clusters it needs |
| `Boot.StreamGet` | sw/bootloader/hal/source/sdcard.c:60-76 | Returns the next word of the file, or fails exactly if there is none on a healthy card |
| `Boot.AppLoad` | sw/bootloader/hal/source/system.c:128-184 | The whole load, from mounting to the last word: on a healthy card with a proper volume the result is exact, a device error without the file, else that of the file; success on any card means that memory holds the program of the file at its base address |
| `Boot.LoadStream` | sw/bootloader/hal/source/system.c:140-184 | Loading the open file: loaded, bad signature, too short, or bad checksum, exactly as the file is; transfer errors can only add device and signature errors |
| `Boot.SdcardSetup` | sw/bootloader/hal/source/sdcard.c:28-51 | Mounts the card and opens the file, whatever volume is on it; on a healthy card fails exactly if there is no such file; where the data area lies on the disk, the file can then be read as a stream |
| `Boot.FileOnHealthyCard` | sw/bootloader/hal/source/sdcard.c:28-51 | The file found on a healthy card is the one that the path names in the one volume that mounting finds |
| `Boot.StoredAt` | sw/bootloader/hal/source/system.c:155-165 | Every word of the program is found at its address |
| `BootBytes.StoredElsewhere` | sw/bootloader/hal/source/system.c:155-165 | All other addresses keep their contents |
| `Boot.ImageLoadable` | sw/image_gen/image_gen.c:253-275 | What the image generator makes, the boot loader accepts, and it finds base and program in it |
| `BootBytes.LoadableByBytes` | sw/bootloader/hal/source/system.c:140-178 | In terms of single bytes: what is accepted starts with NEO!, has the announced words, and a checksum that is the complement of their sum |
| `BootBytes.OutcomeByBytes` | sw/bootloader/hal/source/system.c:128-184 | Which error is reported for which file: no signature, too short, bad checksum, in this order |
| `BootBytes.ImageByBytes` | sw/image_gen/image_gen.c:253-275 | In terms of single bytes: the file that is generated has signature, base, size, checksum and words in this order |
| `Gemm.GemmSw` | sw/example/demo_lenet/main.c:122-132 | The triple loop computes the product |
| `Gemm.TileUnit.Command` | sw/example/gemm_lib/gemmrv_hw.c:4-30 | One command clears, accumulates and stores: the assumption made about the hardware |
| `Gemm.GemmrvMult` | sw/example/gemm_lib/gemmrv_hw.c:32-56 | For all sizes and all strides that keep the rows of C apart, the tiled product is the plain product and no other word of C changes; with no terms the code stores nothing |
| `Gemm.NextPartial` | sw/example/gemm_lib/gemmrv_hw.c:39-53 | One more tile along K extends the partial products in the bank |
| `Gemm.DotSplit` | sw/example/gemm_lib/gemmrv_hw.c:39-53 | A product can be accumulated in two parts |
| `Gemm.DotPicks` | sw/example/demo_lenet/main.c:122-132 | With a row that is 1 in one place a product picks that element of the column |
| `Gemm.DotLinear` | sw/example/demo_lenet/main.c:122-132 | Products are linear in the row, so this fixes them |
| `Gemm.IdentityProduct` | sw/example/demo_lenet/main.c:122-132 | The product with the identity matrix copies every cell to its place |
| `Gemm.NoOverflow` | sw/example/demo_lenet/main.c:122-132 | No product of up to 131071 bytes leaves 32 bits, at any step |
| `Gemm.OverflowBeyond` | sw/example/demo_lenet/main.c:122-132 | For every length from 131072 on there are bytes whose product does |
| `Convolution.Im2col` | sw/example/demo_lenet/main.c:60-87 | Unrolls the image and pads, for all shapes and paddings |
| `Convolution.UnrolledProduct` | sw/example/demo_lenet/main.c:60-87 | Cell (m, oh * out_w + ow) of the product with the unrolled image is the direct convolution |
| `Convolution.UnrolledPixel` | sw/example/demo_lenet/main.c:60-80 | Which place of the unrolled image holds which pixel, by indices |
| `Convolution.UnrolledPadding` | sw/example/demo_lenet/main.c:75-87 | All other places are zero |
| `Convolution.ConvPicks` | sw/example/demo_lenet/main.c:60-87 | A convolution with a single weight of 1 reads one channel of the image, shifted |
| `Convolution.ConvLinear` | sw/example/demo_lenet/main.c:60-87 | Convolution is linear in the weights, so this fixes it |
| `Layers.PadAndCopyWeights` | sw/example/demo_lenet/main.c:47-57 | Copies the weights and fills up with zeros |
| `Layers.PaddedProduct` | sw/example/demo_lenet/main.c:47-57 | Padding never changes a product, whatever lies beyond the real rows of the other operand |
| `Layers.Multiply` | sw/example/demo_lenet/main.c:186-203 | Both paths compute the same product, also where the accelerator reads one column as eight overlapping ones |
| `Layers.ApplyBiasReluScale` | sw/example/demo_lenet/main.c:109-120 | Every output cell is the wrapped sum of the cell and the bias of its row, rectified, divided and cut at 127, as inequalities; the rows close up |
| `Layers.RectifyMeans` | sw/example/demo_lenet/main.c:109-120 | These inequalities hold with the divisors 2048, 4096, 1024 and 256 of the four layers |
| `Layers.RectifiedUnique` | sw/example/demo_lenet/main.c:109-120 | And leave only one byte |
| `Layers.MaxPool2d` | sw/example/demo_lenet/main.c:90-107 | Computes the pooling layer |
| `Layers.BestIsMaximum` | sw/example/demo_lenet/main.c:96-102 | A pooled cell is the maximum of its window |
| `Layers.ConvLayerIs` | sw/example/demo_lenet/main.c:180-207 | Unrolling, product and rectifier together are the convolution layer |
| `Layers.DenseLayerIs` | sw/example/demo_lenet/main.c:248-269 | Product and rectifier together are the fully connected layer |
| `Layers.ConvLayerCells` | sw/example/demo_lenet/main.c:180-207 | By indices: every cell of a convolution layer is the convolution there with its filter and bias, rectified |
| `Layers.PoolLayerIs` | sw/example/demo_lenet/main.c:90-107 | By indices: every cell of a pooling layer is the largest of its own four cells |
| `Layers.DenseLayerCells` | sw/example/demo_lenet/main.c:248-269 | By indices: every cell of a dense layer is the product with its own row and bias, rectified |
| `Lenet.Network.RunInference` | sw/example/demo_lenet/main.c:172-345 | With either path the scores are those of the network as a function of weights and image, and the class is the first with the largest score |
| `Lenet.NetworkByCells` | sw/example/demo_lenet/main.c:172-330 | The scores follow cell by cell from the image through six intermediate maps, with the weights, biases, sizes and divisors of each layer |
| `Lenet.Network.Benchmark` | sw/example/demo_lenet/main.c:392-429 | Running both paths on one image gives equal scores, equal classes and a maximal difference of 0 |
| `Lenet.DeclaredFmapTooSmall` | sw/example/demo_lenet/main.c:11-12 | The declared feature map buffer does not hold the output of the first convolution |
| `Lenet.OutputFits` | sw/example/demo_lenet/main.c:109-120 | An output fits its buffer exactly if the product of its sizes does |
| `LockSpec.Exclusive` | sw/example/demo_dual_core/spinlock.c:18-36 | Between two acquisitions of a lock its first holder has released it |
| `ReservationLock.StepRefines` | sw/example/demo_dual_core/spinlock.c:18-36 | Every step of any number of harts keeps the invariant and is a step of the abstract lock; a live reservation under which 0 was read means that the word is 0 |
| `ReservationLock.RunRefines` | sw/example/demo_dual_core/spinlock.c:18-36 | In every interleaving, spurious failures included, at most one hart holds the lock, and the run is one of the abstract lock |
| `ReservationLock.CheckIsRight` | sw/example/demo_dual_core/spinlock.c:44-52 | The word that the check reads is nonzero exactly while a hart holds the lock |
| `ReservationLock.FreeLockCanBeTaken` | sw/example/demo_dual_core/spinlock.c:18-21 | A hart that spins on a free lock can take it in one attempt |
| `ReservationLock.HeldLockCanBeReleased` | sw/example/demo_dual_core/spinlock.c:29-36 | A hart in the releasing call frees the lock in one attempt of two accesses, and returns |
| `ReservationLock.FailedAttempt` | sw/example/demo_dual_core/spinlock.c:18-36 | An attempt of either call that fails changes neither word nor owner, and is made again |
| `ReservationLock.SpinsWhileHeld` | sw/example/demo_dual_core/spinlock.c:18-21 | While the lock is held, a hart that wants it goes on spinning |
| `ReservationLock.CheckIsHarmless` | sw/example/demo_dual_core/spinlock.c:44-52 | The check is possible outside the other calls and changes neither word nor owner; it leaves a reservation |
| `ReservationLock.NoDeadlock` | sw/example/demo_dual_core/spinlock.c:18-36 | From every state of every run, every hart can still come to hold the lock |
| `SwapLock.RunRefines` | sw/example/demo_dual_core_rte/spinlock.c:18-31 | The swap version has the same safety and refines the same lock |
| `SwapLock.SwapTakesOrSpins` | sw/example/demo_dual_core_rte/spinlock.c:18-21 | One swap takes a free lock and returns; while the lock is held it leaves the hart spinning |
| `SwapLock.SwapReleases` | sw/example/demo_dual_core_rte/spinlock.c:27-31 | One swap frees the lock and returns |
| `SwapLock.NoDeadlock` | sw/example/demo_dual_core_rte/spinlock.c:18-31 | From every state of every run, every hart can still come to hold the lock |
| `Primes.IsPrime` | sw/example/demo_dual_core_primes/main.c:31-43 | Trial division with a wrapping square is exact for every 32-bit number but 4294967291, which it reports as not prime |
| `Primality.BlindSpotIsPrime` | sw/example/demo_dual_core_primes/main.c:31-43 | 4294967291 is prime |
| `Primality.WrongOnce` | sw/example/demo_dual_core_primes/main.c:31-43 | So trial division is wrong on exactly this number |
| `Primes.ScanStops` | sw/example/demo_dual_core_primes/main.c:37 | For every other prime a square, perhaps wrapped, ends the scan |
| `Primes.NeverStops` | sw/example/demo_dual_core_primes/main.c:37 | No 32-bit square exceeds 4294967291 |
| `Primes.CountPrimes` | sw/example/demo_dual_core_primes/main.c:53-62 | Counts the numbers of the range that trial division reports |
| `Primes.AllReported` | sw/example/demo_dual_core_primes/main.c:53-62 | Up to 4294967291 these are all primes |
| `Primes.SmallPrimes` | sw/example/demo_dual_core_primes/main.c:31-62 | The primes below 8 are 2, 3, 5 and 7 |
| `Primes.ReportedAdditive` | sw/example/demo_dual_core_primes/main.c:53-62 | Counts of adjacent ranges add up |
| `PrimesHandOff.HandOff` | sw/example/demo_dual_core_primes/main.c:70-83 | In every interleaving the two-core result is the one-core result and the number of primes below the bound |
| `PrimesHandOff.WaitsForSecond` | sw/example/demo_dual_core_primes/main.c:154-159 | Core 0 leaves its wait loop only after the second core has stored its count |
| `PrimesHandOff.Progress` | sw/example/demo_dual_core_primes/main.c:149-159 | Until core 0 is done, one of the cores makes progress, and it is the one named |
| `PrimesHandOff.Monotone` | sw/example/demo_dual_core_primes/main.c:149-159 | No step of either core goes back; a step makes progress or changes nothing |
| `PrimesHandOff.Completes` | sw/example/demo_dual_core_primes/main.c:149-159 | Under every fair schedule core 0 is done after 13 rounds; for every bound up to 4294967291 it has the number of primes below it |
| `Xtea.Encipher` | sw/example/demo_cfu/main.c:104-120 | The loop computes the encryption, its sum word being cycles times delta modulo 2^32 |
| `Xtea.Decipher` | sw/example/demo_cfu/main.c:130-147 | The loop computes the decryption |
| `Xtea.CycleByBits` | sw/example/demo_cfu/main.c:104-120 | In terms of bits, literal sums and key indices: what each cycle of the encryption adds to either half |
| `Xtea.CycledUnique` | sw/example/demo_cfu/main.c:104-120 | This leaves only one block |
| `Xtea.FirstCycles` | sw/example/demo_cfu/main.c:104-120 | The first four cycles use the key words 0 and 3, 1 and 2, 2 and 1, 3 and 0 |
| `Xtea.DecEnc` | sw/example/demo_cfu/main.c:104-147 | For every key, block and number of cycles decryption undoes encryption |
| `Xtea.EncDec` | sw/example/demo_cfu/main.c:104-147 | And encryption undoes decryption |
| `Xtea.EncryptData` | sw/example/demo_cfu/main.c:228-234 | The block loop encrypts every block of the data |
| `Xtea.DecryptData` | sw/example/demo_cfu/main.c:276-282 | The block loop decrypts every block |
| `Xtea.EncryptedWords` | sw/example/demo_cfu/main.c:228-282 | Word for word: block i is the words 2 i and 2 i + 1, in this order |
| `Xtea.DataRoundTrip` | sw/example/demo_cfu/main.c:228-282 | Decrypting the encrypted array gives the array back |

## Left out

- SPI and UART transfers, card initialisation, block addressing of cards, time-outs and delays: a transfer succeeds or fails as a whole.
- The RTL of the tile unit and of the XTEA instructions: no statement about the CFU loops, and the tile command is assumed.
- Forwarding to a stream (`pf_read` with a null buffer) and `pf_opendir`/`pf_readdir`.
- Code pages: the upper half of a code page is a parameter; double-byte characters are not modelled.
- The registers of the tile unit, the polling of its status and its performance counters.
- Concrete weights: weights, biases and images are arbitrary; only sizes and shifts are those of the source.
- `gemmrv_post_process`, `debug_dump.c`, the multi-tile self-test and all console output.
- The claim of `demo_dual_core/main.c` that core 1 is done: core 0 may check before core 1 ever takes the lock.
- The other demonstration programs: input, output and console plumbing.
- PetitFat.FatFs.PfWrite: demands that a write in mid-sector does not start in the first sector of a later cluster, and that the file has distinct sectors behind the FAT. In the first case the code goes one cluster too far: `FileWrite.ResumeSector` is the exact condition, `FileWrite.ResumeTooFar` the sector it goes to and `FileWrite.ResumeElsewhere` how it goes on, but the file object is then no cursor of its file, so later calls are not modelled.
- PetitFat.FatFs.PfRead: demands that no sector write is in progress, as do opening and mounting; the code does not check it, and what a card makes of a read command in the middle of a data block is not in the sources.
- PetitFat.FatFs.PfLseek: demands that no sector write is in progress, for the same reason.
- Session.RunCalls: demands that no sector write is in progress at the start, as does PetitFat.FatFs.PfRead.
- Session.Run: demands that no write of the run starts in mid-sector in the first sector of a later cluster and that writes are finished before reading or seeking, as do Session.RunWrites, PetitFat.FatFs.PfWrite and PetitFat.FatFs.PfRead.
- Gemm.GemmrvMult: sums are unbounded integers; `Gemm.NoOverflow` says when they are those of 32 bits.
- ReservationLock.RunRefines: a hart calls the releasing function only while it holds the lock; the code does not check it.
- PrimesHandOff.HandOff: the local work between two accesses to shared words is one step, and the count of a range is a function of it (`Primes.CountPrimes`).
- Lenet.Network.RunInference: demands a feature map buffer that holds the first convolution; with the declared size the source writes behind it, as `Lenet.DeclaredFmapTooSmall` says, and what it overwrites there is up to the linker.
- Boot.AppLoad: demands that the volumes that mounting may find are proper ones: areas that fit in the volume and on the disk, and a power of two of sectors in a cluster. Memory is a map from word addresses to words; what a failed load has stored is not stated, and starting the program is not part of the model.
