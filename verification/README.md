# Verified models of TigerOS

TigerOS is a hobby operating system for the i686: a loader (KRNLD) that reads the kernel from a FAT32
partition, a small kernel with a text console, and a host tool (TDISK) that partitions disk images. This
project models the parts of it that keep state and make decisions, in Dafny, and proves what they amount to.
`dafny verify dfyconfig.toml` checks everything.

| file | models | main results |
|---|---|---|
| `Words.dfy` | bytes, 32-bit words, the signed `min` and `max`; products, quotients and powers | when the signed `min` of unsigned operands is a minimum |
| `Bits.dfy` | bitwise or, and-not and shifts | when an or is a sum; single bits |
| `Fat32Volume.dfy` | the volume, the cached FAT, cluster chains | chains are unique, acyclic and short; what using the reserved bits of FAT entries changes |
| `Fat32File.dfy` | `fat32_read` on one slot of the table of open files | buffered reading along a chain is reading a flat byte string |
| `Fat32Names.dfy` | 8.3 names, path components, `strchr` | the name encoding can be inverted; splitting a path loses nothing |
| `Fat32.dfy` | the table of open files, directory scan, path lookup, mounting | path lookup is a fold over flat directories, in the one slot that was free; when a scan and a path find what the FAT32 specification says |
| `Fat32Examples.dfy` | a disk that mounts | a file is walked like a directory, a label is opened like a file, and another file is cut short |
| `KernelLoader.dfy` | the load loop | the memory holds exactly the file, after the least number of rounds |
| `Geometry.dfy` | LBA/CHS, the INT 13h registers, packed CHS | each form gives the address back exactly below a bound |
| `Terminal.dfy`, `Console.dfy` | the 80x25 console, in place | the screen is the end of an ever-growing tape of rows |
| `Numerals.dfy`, `Format.dfy`, `Printf.dfy` | number printing, `printf` | printing and parsing are inverse; the state machine prints what a grammar means |
| `PartitionTable.dfy` | the TDISK table commands | exactly when partitions stay apart and on the disk over a run |
| `Fat12Sizing.dfy` | `alignpow2`, the FAT12 cluster size | the least power of two; at most 4084 clusters; the sizes for which it is zero |
| `Interrupts.dfy` | two 8259A controllers and the IRQ driver | both together are a priority queue with masks that loses nothing |
| `Keyboards.dfy` | the keyboard handler | a scan code stream is a text |

How the state is modelled:

- The disk is a sequence of sectors, numbered from the start of the partition, and a map that says how many
  attempts to read a sector fail before one succeeds. A failed attempt may leave any part of the sector in the buffer.
- A `File*` is the number of its slot. A slot is an object whose fields and 512-byte buffer are changed in place.
- C strings are the byte sequences in front of the terminating NUL.
- Video memory is one array of cells, with the row that lies in front of the screen: `scroll_up(1)` and a
  backspace in the upper left corner write there.
- The two controllers follow the Intel 8259A data sheet: ICW1 to ICW4 are kept as written and decide which words
  follow, who answers an acknowledge cycle with which vector, and when a service ends; the mask decides which lines
  may interrupt; OCW2 is the non-specific end of interrupt, OCW3 the choice of the status register. ICW1 also clears
  the in-service register. The slave's output is wired to line 2 of the master.
- `>>` of a negative `int` repeats the sign bit.

Where the code does not do what it seems meant to do:

- `read_partition_sectors` (`src/boot/krnld/disk.h:23-25`) has no `return`; the model returns the result of the read.
- The NUL behind a path component is written one place too far (`src/boot/krnld/fat32.c:249`, `:254`); the model
  ends the component at its length.
- `fat32_open` prints a field of `current` before it checks for an error (`src/boot/krnld/fat32.c:238`); the model
  leaves the line out.
- The directory check of `fat32_open` is dead (`src/boot/krnld/fat32.c:263`): `Fat32.DirectoryCheckMissing` says exactly
  when that matters, `Fat32Examples.FileTakenForDirectory` gives a path on a disk that mounts, and
  `Fat32Examples.OpenThroughFile` opens it.
- The scan of a directory sees deleted records, labels, parts of long names, and what lies behind the end mark:
  `Fat32.ScanMeetsSpecification` has the exact condition for a directory, `Fat32.TrailMeetsSpecification` for a path.
  `Fat32Examples.LabelTakenForFile` gives a volume label, which `Fat32Examples.OpenLabel` opens.
- `min` compares unsigned sizes as signed (`src/boot/krnld/math.h:4`): `Words.SignedMinIsMin`. All file results are
  for sizes below 2^31.
- FAT entries are used with their reserved bits, and only the first 64 sectors of the FAT are read:
  `Fat32Volume.SpecChainFollowed` has the exact condition,
  `Fat32Examples.ReservedBitsCutAFile` a file on a disk.
- A name whose first dot is its byte 11 loses its extension: `Fat32Names.ExtensionLost` has the exact condition,
  `Fat32Names.ExtensionLostInstance` a name.
- A tab never reaches a multiple of four: `Terminal.TabNeverAligned`.
- A backspace across the right margin restores the cursor only behind a used cell: `Terminal.BackspaceUndoes`. Text
  without NUL never leaves the cursor elsewhere, so that behind it every letter is taken back:
  `Terminal.BackspaceUndoesTyped`. NULs do: `Terminal.NulsLoseColumn`.
- The digit buffer is too small in the bases 2 and 3: `Numerals.BufferSuffices`.
- `create-partition` accepts an offset beyond the disk, and one that wraps its 32-bit sum: `PartitionTable.CreateInBounds`
  and `PartitionTable.RunIsSafe` have the exact conditions, `PartitionTable.OffsetBeyondDisk` and
  `PartitionTable.OffsetWraps` an instance each.
- The FAT12 size guard accepts sizes from 2^31 on: `Fat12Sizing.AcceptedSizes`. For nearly all of them the cluster
  size is zero, by which the code then divides: `Fat12Sizing.ClusterSize`.

## Model

| member | source | states |
|---|---|---|
| Words.SignedMinIsMin | src/boot/krnld/math.h:4-6 | the signed comparison of two unsigned values yields the smaller one exactly if both are on the same side of 2^31; otherwise a small request is raised to the remainder instead of being cut |
| Words.Le32Reads | src/boot/krnld/fat32.c:148-150 | a word read from four bytes is the one whose bytes, the lowest one first, stand there |
| Fat32Volume.ChainIsUnique | src/boot/krnld/fat32.c:148-150 | following FAT entries from a cluster leads along one chain only |
| Fat32Volume.ChainIsAcyclic | src/boot/krnld/fat32.c:170-178 | a chain that reaches an end mark visits no cluster twice, so the walk of the reader ends |
| Fat32Volume.ChainIsShort | src/boot/krnld/fat32.c:13-16 | a chain within the 64 cached FAT sectors has at most 8190 clusters |
| Fat32Volume.SpecChainFollowed | src/boot/krnld/fat32.c:13-16 | the loader follows a chain of the FAT32 specification to its end exactly if all its clusters are below 8192, the ones whose entries are in memory, and the reserved bits of every link but the last are clear |
| Fat32Volume.SectorOfCluster | src/boot/krnld/fat32.c:113-115 | sector r of cluster number q of a chain is sector q*n+r of the clusters laid end to end |
| Fat32Volume.SectorAddressing | src/boot/krnld/fat32.c:113-115 | below 2^32 the wrapping address arithmetic gives the address of the FAT32 layout, and different sectors of different clusters have different addresses |
| Fat32Volume.ReadThreeTimes | src/boot/krnld/disk.c:32-41 | a sector is read unless it lies past the end or three attempts fail |
| Fat32Volume.EntryEndsChain | src/boot/krnld/fat32.c:148-178 | a FAT entry is the four bytes at four times the cluster, and ends a chain exactly from 0x0FFFFFF8 on |
| Fat32File.ChainBytesFit | src/boot/krnld/fat32.c:166 | no position in a chain reaches 2^31, so the 32-bit counters of the reader do not wrap |
| Fat32File.FileContents | src/boot/krnld/fat32.c:156-158 | a file and a directory with a size hold the bytes of their chain up to the size, a directory without a size all of them |
| Fat32File.ReadableSectors | src/boot/krnld/fat32.c:169-182 | the sectors that have to be readable are those of the chain, numbered one after the other |
| Fat32File.ReadsAreConsecutive | src/boot/krnld/fat32.c:152-187 | flat reads one after the other join to one read of the summed length, however the requests are cut; with it `ReadPieces` states its result as one slice |
| Fat32File.CursorFollowsPosition | src/boot/krnld/fat32.c:169-173 | in an open file, cluster number and sector in cluster are quotient and remainder of the position's sector by the cluster size |
| Fat32File.BufferHolds | src/boot/krnld/fat32.c:161-164 | what is left of the buffer is the file at the position |
| Fat32File.TakeFits | src/boot/krnld/fat32.c:156-164 | a copy out of the buffer never runs past the end of the file, although the request need not be cut to the chain |
| Fat32File.AdvancedCursor | src/boot/krnld/fat32.c:169-180 | moving on at the end of a sector meets an end mark exactly when the bytes of the chain are used up, and otherwise stands on the next sector |
| Fat32File.MovesOn | src/boot/krnld/fat32.c:169-182 | at an end mark, pinning the size keeps the bytes of the file and the invariant; otherwise loading the next sector re-establishes it |
| Fat32File.PinnedSize | src/boot/krnld/fat32.c:175-178 | pinning the size at the end of the chain does not change what the file holds |
| Fat32File.OpenedCursorOk | src/boot/krnld/fat32.c:130-144 | a slot that was just set up for a sound file is open, stands at position 0, and satisfies the invariant of the reader |
| Fat32File.CopyBytes | src/boot/krnld/memory.asm:3-24 | the destination is its old contents with the piece put in place |
| Fat32File.DiskRead | src/boot/krnld/disk.c:32-37 | one attempt fills the buffer with the sector or fails, and then promises nothing about the buffer |
| Fat32File.ReadSector | src/boot/krnld/disk.c:28-42 | the loop succeeds exactly if one of three attempts does, and then the buffer holds the sector |
| Fat32File.TakeInSector | src/boot/krnld/fat32.c:161-169 | a copy takes the rest of the request or of the sector, and in the second case ends on a sector boundary |
| Fat32File.FileData.Start | src/boot/krnld/fat32.c:130-145 | the slot is set up at position 0 with its first sector loaded, and counts as open only if that read succeeded |
| Fat32File.FileData.Deliver | src/boot/krnld/fat32.c:161-167 | one copy extends what has been delivered by the next bytes of the file, up to the request or the end of the sector |
| Fat32File.FileData.LoadNextSector | src/boot/krnld/fat32.c:169-182 | the invariant holds for the next sector, or the file is at its end with the same bytes, or a read failed |
| Fat32File.FileData.Serve | src/boot/krnld/fat32.c:160-184 | one round of the loop delivers a non-empty piece and keeps the file |
| Fat32File.FileData.Read | src/boot/krnld/fat32.c:152-187 | the output is the flat bytes of the file from the old position, unwritten behind; without a failed disk read exactly min(count, rest) of them, and the invariant is kept; a failed read only shortens the result |
| Fat32File.ReadPieces | src/boot/krnld/fat32.c:152-187 | any run of reads, however the requests are cut, delivers pieces that join to one slice of the file from the old position, as long as their sum or the rest of the file, and keeps the invariant |
| Fat32Names.StrChr | src/boot/krnld/string.c:5-17 | the first occurrence, or the end |
| Fat32Names.FillField | src/boot/krnld/fat32.c:209-211 | up to the field's width is copied, each letter in upper case, in front of the spaces, and nothing else is touched |
| Fat32Names.EncodeName | src/boot/krnld/fat32.c:201-217 | the buffer holds the 8.3 form: base and extension in upper case, cut and padded to 8 and 3, with the end mark |
| Fat32Names.ShortNameBase | src/boot/krnld/fat32.c:201-211 | the first eight bytes are those of the base, letters in upper case and all other bytes kept, with 0x20 behind it |
| Fat32Names.ShortNameExtension | src/boot/krnld/fat32.c:213-217 | the last three are those of the extension likewise |
| Fat32Names.EncodingInvertible | src/boot/krnld/fat32.c:197-217 | decoding the eleven bytes of a fitting name gives the name without lower case, equal to it but for the case of letters |
| Fat32Names.CaseIgnored | src/boot/krnld/fat32.c:201-217 | names that differ at most in the case of letters have the same eleven bytes |
| Fat32Names.FittingLengths | src/boot/krnld/fat32.c:201-217 | a name without spaces fits exactly with one to eight bytes in front of its first dot and none or one to three behind it |
| Fat32Names.NamesCollide | src/boot/krnld/fat32.c:197-217 | two fitting names have the same eleven bytes exactly if they differ at most in the case of letters |
| Fat32Names.KernelName | src/boot/krnld/main.c:45 | kernel.sys is looked up as KERNEL, two spaces, SYS |
| Fat32Names.ExtensionLost | src/boot/krnld/fat32.c:204-217 | a name is looked up by the bytes it should be exactly if its first dot is not its byte 11, or the extension dropped then is blank |
| Fat32Names.ExtensionLostInstance | src/boot/krnld/fat32.c:204-217 | BOOTMANAGER.SYS is looked up as the file BOOTMANA |
| Fat32Names.ComponentsRejoin | src/boot/krnld/fat32.c:243-257 | joining the components gives the path back up to a final slash |
| Fat32Names.ComponentsHaveNoSlash | src/boot/krnld/fat32.c:245-257 | the components contain no slash, and a path that is not empty has one |
| Fat32Names.ComponentsOfJoin | src/boot/krnld/fat32.c:243-257 | a path that puts a slash behind each of any names is split into these names |
| Fat32Names.SpelledComponents | src/boot/krnld/fat32.c:232-257 | names with slashes between them are split into these names, with or without a slash in front and one at the end |
| Fat32Names.LeadingSlash | src/boot/krnld/fat32.c:232-234 | a slash in front of a path that has none makes no difference |
| Fat32Names.KernelPath | src/boot/krnld/main.c:45 | /system/kernel.sys has the components system and kernel.sys |
| Fat32.FirstMatchIsFirst | src/boot/krnld/fat32.c:219-226 | a scan finds nothing exactly if no complete record carries the name, and otherwise the record with the least number |
| Fat32.EntryRoundTrip | src/boot/krnld/fat32.h:7-20 | a record laid out from its fields is read back, the cluster from its two halves and the directory flag from bit 4 |
| Fat32.ResolveAppends | src/boot/krnld/fat32.c:243-278 | one more name leads from the directory reached so far to the first record with the name in it, or gives 0x0532 or 0x0512 |
| Fat32.WhenLookupFails | src/boot/krnld/fat32.c:229-282 | 0x0532 exactly if some component is missing in the directory that those before it lead to, 0x0512 exactly if the first sector of the root or of some component cannot be read |
| Fat32.ScanMeetsSpecification | src/boot/krnld/fat32.c:219-226 | the scan finds the record that the FAT32 specification says exactly if the first record with the name is neither deleted nor a label nor part of a long name, and no end mark lies in front of it |
| Fat32.TrailMeetsSpecification | src/boot/krnld/fat32.c:243-278 | along a path the lookup finds the very records that the specification finds exactly if in every directory on the way the first record with the name is such a one |
| Fat32.PathMeetsSpecification | src/boot/krnld/fat32.c:243-278 | and then it leads where the specification says |
| Fat32.Scan | src/boot/krnld/fat32.c:197-227 | reading record by record through the buffered reader finds the first matching record of the flat directory, and ends |
| Fat32.DirectoryCheckMissing | src/boot/krnld/fat32.c:263-266 | lookup never reports 0x0531, and agrees with the lookup that checks for directories exactly if no component followed by a slash names a file |
| Fat32Examples.ExampleMounts | src/boot/krnld/fat32.c:83-111 | the example disk mounts, and as nothing but the example volume |
| Fat32Examples.FileTakenForDirectory | src/boot/krnld/fat32.c:263-266 | on that disk A/B leads through the file A |
| Fat32Examples.OpenThroughFile | src/boot/krnld/fat32.c:229-282 | mounting that disk and opening A/B succeeds |
| Fat32Examples.LabelTakenForFile | src/boot/krnld/fat32.c:219-226 | on that disk the path B leads to a volume label, where the specification finds nothing |
| Fat32Examples.OpenLabel | src/boot/krnld/fat32.c:229-282 | mounting that disk and opening B succeeds |
| Fat32Examples.ReservedBitsCutAFile | src/boot/krnld/fat32.c:148-150 | on that disk a file of two clusters by the specification is one cluster for the loader |
| Fat32.HandlesConserved | src/boot/krnld/fat32.c:117-146 | a change of one free slot leaves every other handle open or closed as it was, and the count grows by one exactly if that slot is open |
| Fat32.FileSystem.Init | src/boot/krnld/fat32.c:83-111 | the error codes exactly by their causes; on success the root is the cluster of the boot sector, the FAT and the data address are those on the disk, and no slot is open; on failure root, data address and handles are kept, but the cluster size is that of the new boot sector if it was read |
| Fat32.BootRoundTrip | src/boot/krnld/fat32.c:20-48 | the fields of the boot sector are read from their places |
| Fat32.BootFatSector | src/boot/krnld/fat32.c:78-81 | sector i of the cached FAT is sector i behind the reserved ones |
| Fat32.RunIsEach | src/boot/krnld/disk.c:28-42 | reading several sectors succeeds exactly if each of them can be read |
| Fat32.FileSystem.FindFreeSlot | src/boot/krnld/fat32.c:118-124 | the lowest slot that is not open |
| Fat32.FileSystem.OpenEntry | src/boot/krnld/fat32.c:117-146 | 0x0511 exactly if all slots are open, 0x0512 exactly if the first sector cannot be read; only the lowest free slot changes, and it is open exactly on success |
| Fat32.FileSystem.Close | src/boot/krnld/fat32.c:193-195 | one slot is closed and the table is otherwise the same |
| Fat32.FileSystem.FindFile | src/boot/krnld/fat32.c:197-227 | the scan, with every other slot untouched |
| Fat32.TakeName | src/boot/krnld/fat32.c:243-257 | the name buffer holds the first component, ended, and the rest of the path has the other ones |
| Fat32.FileSystem.Descend | src/boot/krnld/fat32.c:260-277 | one component: what the scan finds is opened in the slot the directory had, else 0x0532 or 0x0512 with the slot closed |
| Fat32.FileSystem.Walk | src/boot/krnld/fat32.c:243-278 | the rest of a path whose components fit the name buffer leads where folding the lookup over its components leads |
| Fat32.FileSystem.Open | src/boot/krnld/fat32.c:229-282 | success, 0x0512 and 0x0532 exactly as the fold over the components says, 0x0511 exactly if no slot was free; on success the file is open at position 0 in the slot that was the lowest free one, all other slots are untouched, and the set of open slots grows by that one or not at all |
| Fat32.FileSystem.OpenSpelled | src/boot/krnld/fat32.c:229-282 | however a path spells some names, with a slash in front or without, opening it leads where the names lead |
| KernelLoader.ReadAll | src/boot/krnld/main.c:52-58 | the destination holds exactly the file, the memory behind it is unchanged, and ceil(length/65536) rounds deliver something |
| KernelLoader.RoundsSuffice | src/boot/krnld/main.c:55-58 | that many rounds of 64 KiB suffice, and one less does not |
| KernelLoader.LoadKernel | src/boot/krnld/main.c:44-60 | opening, loading and closing: on success the memory holds the file the path resolves to, on failure it is unchanged, and the open slots are those from before |
| Geometry.Locate | src/boot/krnld/disk.c:21-25 | head and sector lie in the drive's bounds and the triple has the given address |
| Geometry.AddressIsUnique | src/boot/krnld/disk.c:21-25 | no other triple within the bounds has it |
| Geometry.DriveLimits | src/boot/krnld/disk.c:21-25 | the drives that are meant have 1 to 63 sectors a track and 1 to 256 heads |
| Geometry.PackRegisters | src/boot/krnld/hardware.asm:179-189 | the shifts and ors put the cylinder's low byte in CH, its two next bits and the sector in CL, the head in DH |
| Geometry.PackedOr | src/boot/krnld/hardware.asm:182-187 | the two bytes that are or-ed into CL have no bit in common |
| Geometry.UnpackPacked | src/boot/krnld/hardware.asm:179-189 | unpacking gives cylinder, head and sector modulo 1024, 256 and 64 |
| Geometry.PackedInstance | src/boot/krnld/hardware.asm:179-189 | the registers for cylinder 0x3A5, head 7, sector 0x2B |
| Geometry.BiosReadsSector | src/boot/krnld/disk.c:28-42 | the BIOS reads the sector that was asked for exactly if it lies below cylinder 1024 |
| Geometry.TableChsRoundTrip | tools/disk/tdisk/diskutil.c:18-23 | the packed form of a table entry gives the address modulo 1032192, hence the address exactly below that |
| Geometry.TableChsInstance | tools/disk/tdisk/diskutil.c:18-23 | the packed form of the sectors 1000 and 2000 |
| Geometry.CylinderOr | tools/disk/tdisk/diskutil.c:20 | sector and shifted cylinder have no bit in common, so that cutting their or to 16 bits cuts the cylinder |
| Terminal.LineEndIsLast | src/kernel/i686/vga.c:96-103 | the cursor comes behind the last used cell among the cells 1 to 78, or to column 0 |
| Terminal.GlyphView | src/kernel/i686/vga.c:84-87 | a printed character changes the screen as it changes the end of the tape, scrolling included |
| Terminal.EraseView | src/kernel/i686/vga.c:77-104 | so does a backspace |
| Terminal.PutView | src/kernel/i686/vga.c:68-114 | what any character does to the screen depends on nothing that has left it |
| Terminal.TextOnTape | src/kernel/i686/vga.c:84-111 | text without control characters stands on the tape as it is, wrapped at 80 columns, with the cursor behind it |
| Terminal.NewlineLaw | src/kernel/i686/vga.c:70-73 | a newline goes to the beginning of the row below, keeps all cells, and a row it adds is empty |
| Terminal.ReturnLaw | src/kernel/i686/vga.c:74-76 | a return goes to the beginning of the row and changes nothing else |
| Terminal.TabLaw | src/kernel/i686/vga.c:81-83 | a tab writes two, two, one or three spaces, by the column modulo four |
| Terminal.BackspaceLaw | src/kernel/i686/vga.c:77-104 | the kernel's backspace clears the cell before the cursor and goes there, or to the end of the row above; the loader's is printed |
| Terminal.LinesOnTape | src/kernel/i686/vga.c:68-111 | behind a newline, text stands from the beginning of the row below the end of what came before, which is left as it was |
| Terminal.HistoryKept | src/kernel/i686/vga.c:51-111 | without backspaces no row above the cursor ever changes |
| Terminal.TabNeverAligned | src/kernel/i686/vga.c:81-83 | a tab prints 2, 2, 1 or 3 blanks and never stops at a multiple of four |
| Terminal.BackspaceUndoes | src/kernel/i686/vga.c:77-111 | a backspace takes back a letter on a clear cell: the cells always, up to one row of scrolling; the cursor exactly if there was no wrap or the cell before is in use |
| Terminal.TextKeepsEdge | src/kernel/i686/vga.c:68-114 | text without NUL, whatever its control characters, never leaves the cursor in the last column behind an unused cell |
| Terminal.BackspaceUndoesTyped | src/kernel/i686/vga.c:77-111 | behind such text a backspace takes back a letter on a clear cell altogether, across the right margin too, up to one row of scrolling |
| Terminal.NulsLoseColumn | src/kernel/i686/vga.c:96-103 | behind 79 NULs a letter and a backspace lead to column 0 instead of 79 |
| Consoles.Console.Clear | src/kernel/i686/vga.c:38-49 | every cell of the screen is empty, the row in front untouched, the cursor home |
| Consoles.Console.ScrollUp | src/kernel/i686/vga.c:51-66 | the overlapping copy in place is a shift by one row, with an empty row at the end |
| Consoles.Console.WrapBack | src/kernel/i686/vga.c:90-104 | the cursor goes to the end of the row above, or of the first row |
| Consoles.Console.BackUp | src/kernel/i686/vga.c:77-104 | the backspace case does to memory and cursor what it does to the tape |
| Consoles.Console.PutTab | src/kernel/i686/vga.c:81-83 | the loop that reads the cursor again in each round prints the stated number of blanks |
| Consoles.Console.PutC | src/kernel/i686/vga.c:68-114 | memory and cursor are the end of the tape that the character continues; the cursor stays on the screen |
| Consoles.Console.PutS | src/boot/krnld/stdio.c:97-101 | after any string the screen is the end of the tape written with it |
| Numerals.DigitsParse | src/kernel/stdio.c:33-46 | the printed digits parse to the number and have no leading zero |
| Numerals.HexChars | src/kernel/stdio.c:31 | the sixteen digits |
| Numerals.PrintedNumbers | src/kernel/stdio.c:33-55 | 255 in the bases 16 and 8, and a negative number |
| Numerals.ParseIsPrinted | src/kernel/stdio.c:33-46 | every canonical digit string is the one printed for its value |
| Numerals.IntTextParses | src/kernel/stdio.c:48-55 | printing a signed number and parsing it gives it back |
| Numerals.DigitCount | src/kernel/stdio.c:34-41 | at most k digits exactly below the power k of the base |
| Numerals.BufferSuffices | src/kernel/stdio.c:34 | 32 bytes hold every 64-bit number from base 4 on, and in the bases 2 and 3 exactly the numbers below base^32 |
| Format.EnoughArgs | src/kernel/stdio.c:110-176 | what is printed depends on as many arguments as there are value conversions, and on no others |
| Format.ParsedDirective | src/kernel/stdio.c:64-107 | a percent sign, one of the five modifiers and a character are a conversion, any other character stands for itself, and a conversion without a character is dropped |
| Format.ShownNumber | src/kernel/stdio.c:119-176 | what a numeric conversion shows, read in base 10 for d, i and u, 16 for x, X and p, and 8 for o, is congruent to the bits of its argument modulo 2^32 or 2^64, in the signed range for d and i and the unsigned one otherwise |
| Format.ShownText | src/kernel/stdio.c:110-118 | c shows the low byte, s the string, %% a percent sign; exactly nine conversions take an argument, and an unknown one shows nothing |
| Format.FittingArg | src/kernel/stdio.c:110-176 | a conversion takes a 32-bit argument, or with ll and a number 64 bits but for the least signed number |
| Format.EscapeRenders | src/kernel/stdio.c:64-72 | doubling the percent signs of any text makes it a format that prints the text |
| Printf.FillDigits | src/kernel/stdio.c:37-41 | the buffer holds the digits in reverse and does not overflow |
| Printf.PendingMoves | src/kernel/stdio.c:74-105 | the moves that print nothing keep the directives still to come |
| Printf.PendingEmits | src/kernel/stdio.c:107-183 | the moves that finish a directive, through the jump or not, take exactly the next one off |
| Printf.Stream.FPutC | src/kernel/stdio.c:5-7 | the character is appended to what was written, and the screen shows it |
| Printf.Stream.FPutS | src/kernel/stdio.c:9-13 | the same for a string |
| Printf.Stream.FPrintUInt | src/kernel/stdio.c:33-46 | exactly the digits of the number are written |
| Printf.Stream.FPrintInt | src/kernel/stdio.c:48-55 | sign and digits are written |
| Printf.Stream.Specifier | src/kernel/stdio.c:107-183 | a conversion prints its argument in its base and sign, a percent sign itself, an unknown one nothing; an argument is read exactly by the conversions that show one |
| Printf.Stream.VFPrintf | src/kernel/stdio.c:57-184 | the state machine writes what the grammar says the format means, and reads one argument for each value conversion |
| Printf.PrintOn | src/boot/krnld/stdio.c:145-277 | after `printf` the screen is the end of the tape written with the meaning of the format |
| PartitionTable.CreateLaw | tools/disk/tdisk/mbr.c:303-308 | a creation is accepted or changes nothing; it fills the first empty entry, with the type asked for and not active, and no other |
| PartitionTable.SetActiveLaw | tools/disk/tdisk/mbr.c:388-429 | exactly bit 7 of the entry with the number is set or cleared, and unless told otherwise cleared in the others; the result codes by their causes |
| PartitionTable.DeleteLaw | tools/disk/tdisk/mbr.c:460-497 | exactly the entry with the number is emptied; the result codes by their causes |
| PartitionTable.InstallLaw | tools/disk/tdisk/mbr.c:103-110 | a new MBR keeps every entry, or with the option empties all four |
| PartitionTable.RunKeepsPartition | tools/disk/tdisk/mbr.c:103-497 | over every run that neither deletes it nor empties the table a partition stays in its entry, with its place, length and type |
| PartitionTable.FreeBehindAll | tools/disk/tdisk/mbr.c:275-285 | the first free sector lies behind every entry in use, and directly behind one of them or at 63 |
| PartitionTable.CreateIsSafe | tools/disk/tdisk/mbr.c:270-309 | a created partition keeps the table safe exactly if its sectors lie behind the first track, on the disk, and clear of every entry in use; it takes the first empty entry, and its CHS fields give its first and last sector |
| PartitionTable.WhenCreateFits | tools/disk/tdisk/mbr.c:275-298 | without a carry past 2^32 in the offset the partition lies behind all others, and fits exactly if its size does not carry either, or, for the rest of the disk, there is a rest; with a carry it begins before the first free sector |
| PartitionTable.OffsetBeyondDisk | tools/disk/tdisk/mbr.c:292-301 | a command that is accepted and reaches beyond the disk |
| PartitionTable.OffsetWraps | tools/disk/tdisk/mbr.c:292-301 | two commands that are accepted, the second of which puts a partition into the first |
| PartitionTable.CreateInBounds | tools/disk/tdisk/mbr.c:275-298 | an accepted creation whose offset does not carry past 2^32 keeps the table safe exactly if, from the first free sector and the offset on, its size does not carry past 2^32, or, for the rest of the disk, there is a rest |
| PartitionTable.WhenAccepted | tools/disk/tdisk/mbr.c:287-301 | a creation is accepted exactly if an entry is empty and the wrapped end lies on the disk, always so for the rest of the disk |
| PartitionTable.StepIsSafe | tools/disk/tdisk/mbr.c:270-309 | a command keeps the entries apart, from sector 63 on and on the disk exactly if it is no creation, or finds no empty entry, or keeps these bounds on first free sector, offset and size; only where the offset carries does it take a look at the single entries |
| PartitionTable.RunIsSafe | tools/disk/tdisk/mbr.c:270-309 | the table is safe throughout a run of commands exactly if each of them keeps its bounds |
| PartitionTable.RunOnDiskIsSafe | tools/disk/tdisk/mbr.c:270-309 | it is safe throughout every run whose creations begin on the disk and ask for less than 2^31 sectors |
| PartitionTable.ModestRunIsSafe | tools/disk/tdisk/mbr.c:270-309 | it is safe throughout every run whose creations keep disk size, offset and size together below 2^32 and take the rest of the disk only without an offset, whatever the table is |
| PartitionTable.ActivateLeavesOne | tools/disk/tdisk/mbr.c:410-429 | activating an entry in use leaves exactly it active |
| PartitionTable.ActiveEntries | tools/disk/tdisk/mbr.c:415-429 | at most one entry is active exactly if the set of the active ones holds at most one |
| PartitionTable.RunKeepsOneActive | tools/disk/tdisk/mbr.c:415-429 | over every run without `-n` activations at most one entry is active |
| PartitionTable.Mbr.CreatePartition | tools/disk/tdisk/mbr.c:270-309 | result and table are those of the command |
| PartitionTable.Mbr.SetActivePartition | tools/disk/tdisk/mbr.c:388-429 | result and table are those of the command |
| PartitionTable.Mbr.DeletePartition | tools/disk/tdisk/mbr.c:460-497 | result and table are those of the command |
| PartitionTable.Mbr.InstallMbr | tools/disk/tdisk/mbr.c:103-110 | the new image carries the old table entry by entry, or with the option an empty one |
| Fat12Sizing.SmearStep | tools/disk/tdisk/mathutil.c:24-28 | a shift-and-or step doubles the run of ones at the top |
| Fat12Sizing.SarIsFloor | tools/disk/tdisk/mathutil.c:24-28 | shifting an `int` to the right divides it, with its sign, by the power of two and rounds down |
| Fat12Sizing.SignRepeated | tools/disk/tdisk/mathutil.c:24-28 | for a negative number the repeated sign bit adds nothing to the step |
| Fat12Sizing.Smear | tools/disk/tdisk/mathutil.c:24-28 | one statement or-s the shifted number, and doubles the ones of positive and negative numbers alike |
| Fat12Sizing.AlignPow2 | tools/disk/tdisk/mathutil.c:21-30 | the least power of two that is not below the argument, up to 2^30; zero for negative arguments |
| Fat12Sizing.CDivIsCeiling | tools/disk/tdisk/mathutil.c:11-15 | division rounding up |
| Fat12Sizing.AcceptedSizes | tools/disk/tdisk/fs/fat/fat12.c:14-17 | the guard accepts exactly the sizes up to 522752 and those from 2^31 on |
| Fat12Sizing.ClusterSize | tools/disk/tdisk/fs/fat/fat12.c:14-35 | for every 32-bit size: rejected exactly between 522752 and 2^31; below, the least suitable power of two; from 2^31 on zero, except that the last sizes give one |
| Fat12Sizing.ClusterCountBounded | tools/disk/tdisk/fs/fat/fat12.c:35 | it fits its byte, gives at most 4084 clusters, and half of it would give more |
| Interrupts.NextKeeps | src/kernel/i686/irq.c:10-24 | no event loses a waiting line or a record of service |
| Interrupts.RankOrder | src/kernel/i686/pic.c:42-46 | the order of the lines: 0, 1, the slave's 8 to 15 in the place of the cascade, 3 to 7 |
| Interrupts.NoRequestLost | src/kernel/i686/irq.c:10-24 | in every run a line that was raised still waits or has been served since |
| Interrupts.NextIsUnique | src/kernel/i686/irq.c:10-24 | the queue leaves no choice: the line served is determined |
| Interrupts.SpuriousComesLast | src/kernel/i686/irq.c:10-24 | a line that is masked or that nobody raised is served only if no line that may be served comes before it, and without a glitch only if there is none; what is masked keeps waiting |
| Interrupts.UnmaskedIsServed | src/kernel/i686/pic.c:89-101 | a line that waits behind its mask is served next once it is unmasked, if nothing comes before it |
| Interrupts.ConfiguredAccept | src/kernel/i686/pic.c:29-59 | with the words that the driver writes, an acknowledge cycle answers for the first unmasked line across the cascade, on vector 0x20+i, and takes it into service if it was raised |
| Interrupts.CommandWords | src/kernel/i686/pic.c:9-33 | a byte at the command port starts the set-up if bit 4 is set, selects a status register if bits 3 and 1 are, ends the highest service from 0x20 to 0x27, and else does nothing |
| Interrupts.CascadeNeeded | src/kernel/i686/pic.c:42-46 | whatever is written to ICW3, a line of the slave arrives on its vector exactly if the master takes line 2 for a slave's and the slave has the number 2 |
| Interrupts.Machine.Configure | src/kernel/i686/pic.c:29-59 | from any state the words leave both controllers ready, with the four words as given, nothing masked and nothing in service |
| Interrupts.Machine.Initialize | src/kernel/i686/irq.c:26-33 | the machine is idle: two cascaded controllers for an 8086, without automatic end of interrupt, with their vectors from 0x20 on, and no line masked |
| Interrupts.MaskedLine | src/kernel/i686/pic.c:75-101 | setting a line's mask bit keeps exactly that line from interrupting, whatever is in service; clearing it lets exactly that line interrupt again if it is ahead of what is in service, and undoes the setting |
| Interrupts.Machine.MaskLine | src/kernel/i686/pic.c:75-87 | the bit of the line is set in the mask of its controller, read and written back, and nothing else changes; the masked lines are one more |
| Interrupts.Machine.UnmaskLine | src/kernel/i686/pic.c:89-101 | the bit is cleared likewise; the masked lines are one less |
| Interrupts.Machine.EndInterrupt | src/kernel/i686/pic.c:61-66 | the master's highest service ends, and the slave's for the lines 8 to 15 |
| Interrupts.Machine.HandleIRQ | src/kernel/i686/irq.c:10-24 | the handler of the line is called if there is one, the status reads have no other effect, and the services end |
| Interrupts.Machine.Serve | src/kernel/i686/irq.c:10-24 | one interrupt, spurious or not, serves the first line and leaves nothing in service |
| Interrupts.Machine.React | src/kernel/i686/irq.c:10-24 | every event, spurious interrupts, masking and unmasking included, is a step of the queue, and nothing stays in service |
| Interrupts.ReactAll | src/kernel/i686/irq.c:10-24 | every sequence of events is a run of the queue, and exactly the handlers of the served lines were called, in order |
| Interrupts.HandledLines | src/kernel/i686/irq.c:15-20 | of the lines served, exactly those with a handler have been handled |
| Keyboards.Plain | src/kernel/i686/keyboard.c:80-91 | the codes that count come from the stream and are no prefixes |
| Keyboards.KeyText | src/kernel/i686/keyboard.c:92-95 | a key types only printable characters, tabs, newlines and backspaces |
| Keyboards.KeyTypes | src/kernel/i686/keyboard.c:92-95 | a key types exactly if its entry is printable, a backspace, a tab or a newline, and then that character, shifted if asked for |
| Keyboards.KeyRows | src/kernel/i686/keyboard.c:8-67 | the characters of the four rows of keys, without shift and with it |
| Keyboards.OtherKeys | src/kernel/i686/keyboard.c:8-33 | space bar, enter, tab and backspace |
| Keyboards.TypedText | src/kernel/i686/keyboard.c:86-95 | so does every stream |
| Keyboards.TypedStep | src/kernel/i686/keyboard.c:77-97 | one code of the stream: its text, and the state in which the rest is read |
| Keyboards.ShiftedLetter | src/kernel/i686/keyboard.c:38-67 | a letter typed under a shift key is in upper case, and the next one is not |
| Keyboards.TypedInstance | src/kernel/i686/keyboard.c:77-97 | streams with each of the shift keys, with a prefix, and with typing disabled |
| Keyboards.TypedKeepsEdge | src/kernel/i686/keyboard.c:92-95 | what is typed keeps the cursor behind used cells in the last column, so that the backspace key takes back any letter |
| Keyboards.SwallowedCodes | src/kernel/i686/keyboard.c:80-84 | the two keys whose codes are in the table only behind a prefix type nothing |
| Keyboards.Keyboard.KeyPress | src/kernel/i686/keyboard.c:77-97 | state and output after one code, which has to be in the table unless a prefix swallows it |
| Keyboards.Keyboard.KeyPresses | src/kernel/i686/keyboard.c:77-97 | a stream of codes prints the text it means, and the cursor stays on the screen |

## Left out

- Fat32File.FileData.Read: what is read after a failed disk read left an old buffer behind is not described.
- Fat32.FileSystem.Open: chains that leave the cached part of the FAT or run in a circle, and unreadable directory sectors, are outside its precondition; on such volumes the walk need not end.
- Fat32.FileSystem.Open: a component of 255 bytes or more is excluded; in C it is written past the end of the 256-byte name buffer.
- Fat32.FileSystem.Init: what a failed read leaves of the old boot sector and FAT is not described.
- Fat32.ScanMeetsSpecification: the 0x05 that the specification writes for a first byte 0xE5 is not translated back.
- Fat12Sizing.AlignPow2: arguments above 2^30, and the least `int`, are excluded: the C arithmetic overflows.
- Printf.Stream.FPrintInt: the least 64-bit number is excluded, since C leaves its negation undefined.
- Printf.PrintOn: the loader's `printf` has the same text as the kernel's and is modelled by the same machine; the two consoles differ in the field `erases`.
- Keyboards.Keyboard.KeyPress: the codes 0x5C to 0x5F without a prefix, for which the code reads past its table, are excluded.
- Interrupts.Machine.React: handlers that enable interrupts, and so nest, are excluded.
- Interrupts.ConfiguredAccept: edge and level triggering, buffered and special fully nested mode, rotation and polling of the controllers are not told apart.
- `disable_PIC`: it masks every line.
- `disk_reset` between two attempts to read: it has no effect on what the model describes.
- `delete-partition --shift`, `mbr --no-modify`, partition types other than primary, and all argument parsing and prompts of TDISK.
- The FAT and its placement in `FAT12_format`; the formatted image is not claimed to be sound.
- Port I/O, BIOS calls, mode switches, GDT and IDT, boot sectors, logging, exception dumps, random numbers, cursor port writes.
- `move_curs_VGA` and the color setters: the color of a cell is kept with its character, the ports are not modelled.
