# Verified model of the stanford-cs140e kernel and FAT32 core

This project models the lower layers of the course operating system in Dafny and proves properties of the model:

- **FAT32 driver.**
  - The write-back sector cache, `CachedDevice`. It maps logical sectors of a partition onto device sectors, fills an entry on a miss and never evicts.
  - Master Boot Record decoding and validation, following the IBM-PC partition-table layout.
  - FAT entry classification and cluster numbers.
- **Shell.**
  - `StackVec`, the bounded vector over caller-supplied storage.
  - Command parsing and `execute`.
  - The byte loop of `readline`.
- **Kernel allocator.**
  - `align_down` and `align_up`.
  - The bin allocator's size classes.
  - `alloc` and `dealloc` as a state machine over `start`, `external_frag` and the per-bin free lists.
- **Duration.** Unit conversion to milliseconds and the equality built on it.

## Modelling choices

**The block device.**
- It is the value `BlockDevice.Disk`: a sector size plus a sequence of sectors. An absent sector, or one past the end, fails to read.
- A multi-sector fill reads sectors in order, and the first error ends it (`ReadRun`).
- `CachedDevice` keeps two ghost logs:
  - `deviceReads`: the physical sectors asked for;
  - `filled`: the logical sectors filled.

  These state that a hit reads nothing and that each logical sector is filled at most once.

**Stateful code becomes classes.**
- `CachedDevice`, `StackVec` (over an `array`) and the bin `Allocator` are classes.
- Each method is proved against a function of the old state:
  - `Loaded` for the cache;
  - `AllocSpec` and `DeallocSpec` for the allocator;
  - `EditAll` for `readline`;
  - `ReadRecord` for `MasterBootRecord::from`;
  - `ParseResult` for `Command::parse`.

**Bit operations on bytes become arithmetic.**
- A mask of low bits is `%`.
- The top four bits of a `u32` are cleared by `% 2^28`.
- `|` on the CHS bytes is `Mbr.BitOr`, defined on the lowest bit and the rest; `Mbr.BitOrBits` proves it is the bitwise or.

**Integer widths.** They are subset types `u8`..`u64` and `usize` (64 bits). Where the source could overflow, the model either states the range as a precondition or uses an unbounded number; each case is listed under "Left out".

**Where code and comments disagree, the model follows the code.**
- `StackVec::into_slice` and `as_slice` return the whole backing storage (`1-shell/stack-vec/src/lib.rs:56-67`), although a comment says the slice has the vector's length. `StackVec.AsSlice` and `IntoSlice` model the code.
- The other disagreements are listed under "Findings".

## Model

| member | source | states |
|---|---|---|
| Bytes.LeUint | 2-fs/fat32/src/mbr.rs:86-87 | a little-endian field of n bytes is below 256^n |
| Bytes.LeUintOfLeBytes | 2-fs/fat32/src/mbr.rs:86-87 | decoding the little-endian bytes of a value gives the value back |
| Bytes.LeBytesOfLeUint | 2-fs/fat32/src/mbr.rs:86-87 | encoding a decoded field gives back its bytes |
| Bytes.LeUint2 | 2-fs/fat32/src/mbr.rs:121 | a u16 field is its low byte plus 256 times its high byte |
| Bytes.LeUint4 | 2-fs/fat32/src/mbr.rs:86-87 | a u32 field is its four bytes weighted 1, 2^8, 2^16, 2^24 |
| BlockDevice.ReadSector | 2-fs/fat32/src/vfat/cache.rs:88 | a device read succeeds iff the sector exists and is readable; a success has exactly the sector size; a failure names the sector |
| BlockDevice.ReadRun | 2-fs/fat32/src/vfat/cache.rs:87-89 | the fill loop: sectors p..p+n-1 read in order and concatenated, the first failure ending the run; its properties are `ReadRunOk`, `ReadRunLength`, `ReadRunLayout` and `FailurePersists` |
| BlockDevice.ReadRunOk | 2-fs/fat32/src/vfat/cache.rs:87-89 | filling a run succeeds iff every sector in it reads |
| BlockDevice.ReadRunLength | 2-fs/fat32/src/vfat/cache.rs:86-89 | a filled run holds n device sectors' worth of bytes |
| BlockDevice.ReadRunLayout | 2-fs/fat32/src/vfat/cache.rs:87-89 | physical sector p+k lies at bytes [k*size, (k+1)*size) of the filled buffer (concatenation in order) |
| BlockDevice.RequestedOnSuccess | 2-fs/fat32/src/vfat/cache.rs:87-89 | a successful fill asks for sectors p..p+n-1, in order, once each |
| BlockDevice.FailurePersists | 2-fs/fat32/src/vfat/cache.rs:88 | the `?` stops the loop: after the first failure no further sector is asked for and the error is kept |
| Cache.VirtualToPhysical | 2-fs/fat32/src/vfat/cache.rs:69-81 | equal sizes or a sector before the partition map to (v, 1); with different sizes, inside the partition the factor is the quotient of the two sizes (factor device sectors fit in a logical sector, factor + 1 do not), and the physical start is at or after v |
| Cache.PhysicalRunsContiguous | 2-fs/fat32/src/vfat/cache.rs:75-79 | the partition's first logical sector starts at its first physical sector, and each next logical sector starts where the previous one's run ends; with the factor above this fixes the mapping for every sector |
| Cache.LogicalSectorSpan | 2-fs/fat32/src/vfat/cache.rs:48-49 | when the logical size is a multiple of the device size, factor device sectors are exactly one logical sector |
| Cache.PhysicalRunsOrdered | 2-fs/fat32/src/vfat/cache.rs:72-79 | a lower logical sector's run ends at or before a higher one's begins |
| Cache.PhysicalRunsDisjoint | 2-fs/fat32/src/vfat/cache.rs:72-79 | two different logical sectors never share a physical sector |
| Cache.VirtualToPhysicalExamples | 2-fs/fat32/src/vfat/cache.rs:70-79 | concrete mappings for a 4096-byte logical sector on a 512-byte device, before and inside the partition |
| Cache.CachedDevice.constructor | 2-fs/fat32/src/vfat/cache.rs:54-65 | requires the partition sector size to be at least the device's; the cache and both logs start empty |
| Cache.CachedDevice.SectorSize | 2-fs/fat32/src/vfat/cache.rs:136-138 | the cached device's sector size is the partition's, never below the device's |
| Cache.CachedDevice.Loaded | 2-fs/fat32/src/vfat/cache.rs:83-93 | a fill adds key n exactly when n was missing and the read succeeded; no existing entry changes; the new entry is clean and holds the device bytes |
| Cache.CachedDevice.LoadedIdempotent | 2-fs/fat32/src/vfat/cache.rs:84-90 | filling twice is filling once; n is present afterwards iff it was cached or readable; keys only grow |
| Cache.CachedDevice.FetchLength | 2-fs/fat32/src/vfat/cache.rs:43-46 | a filled entry is factor device sectors long; before the partition, one device sector |
| Cache.CachedDevice.LoadCache | 2-fs/fat32/src/vfat/cache.rs:83-93 | the new cache is `Loaded(old cache)`; a hit reads nothing and fills nothing; a miss reads the run's sectors in order; the error is returned with nothing inserted |
| Cache.CachedDevice.Get | 2-fs/fat32/src/vfat/cache.rs:121-128 | fills as `LoadCache` does, then returns the cached bytes, or the read error when the sector is absent; no entry's data or flag is otherwise touched |
| Cache.CachedDevice.GetMut | 2-fs/fat32/src/vfat/cache.rs:105-113 | as `Get`, and marks entry n (only n) dirty |
| Cache.CachedDevice.ReadSector | 2-fs/fat32/src/vfat/cache.rs:139-144 | copies min(sector, buf) bytes of the cached sector into buf, returns that count and leaves the rest of buf; on error buf is untouched; a hit reads nothing from the device and a miss reads the run |
| Cache.CachedDevice.WriteSector | 2-fs/fat32/src/vfat/cache.rs:145-150 | overwrites the first min(buf, sector) bytes of the cached sector, keeps the rest, marks it dirty and returns the count; on a read error nothing is written; a hit reads nothing from the device and a miss reads the run |
| Cache.CachedDevice.Overwrite | 2-fs/fat32/src/vfat/cache.rs:148-149 | the in-place write into the dirty entry; every other entry and the read log are unchanged |
| Cache.ReadScenario | 2-fs/fat32/src/vfat/cache.rs:165-184 | through a cache over the two-sector image, reading sector 0 returns 512 and a buffer starting with 255 (then sector 1, below) |
| Cache.ReadSecondSector | 2-fs/fat32/src/vfat/cache.rs:182-183 | reading the uncached sector 1 returns 512 and a buffer starting with 1 |
| Cache.ReadPastEndScenario | 2-fs/fat32/src/vfat/cache.rs:208-221 | reading sector 3 of the two-sector image fails and caches nothing |
| Cache.WriteThenReadScenario | 2-fs/fat32/src/vfat/cache.rs:186-201 | writing a sector that starts with 1 over sector 0 returns 512 (the read back follows below) |
| Cache.ReadBack | 2-fs/fat32/src/vfat/cache.rs:202-205 | a later read of the written sector returns 512 and sees the written 1, not the device's 255 |
| Cache.TwoSectorReads | 2-fs/fat32/src/vfat/cache.rs:167-173 | the test image reads 255 at sector 0 and 1 at sector 1, and fails at sector 3 |
| Mbr.BitOr | 2-fs/fat32/src/mbr.rs:17 | the or is at least each operand; `BitOrBits` states it bit by bit |
| Mbr.BitOrBelow | 2-fs/fat32/src/mbr.rs:17 | or-ing two k-bit values gives a k-bit value |
| Mbr.BitOrBits | 2-fs/fat32/src/mbr.rs:17 | bit i of the or is set iff bit i is set in either operand |
| Mbr.BitOrShifted | 2-fs/fat32/src/mbr.rs:17 | or-ing a multiple of 2^k with y keeps the low k bits of y and ors the high parts |
| Mbr.Sector | 2-fs/fat32/src/mbr.rs:13-15 | the CHS sector number is at most 63 |
| Mbr.Cylinder | 2-fs/fat32/src/mbr.rs:16-18 | as written: below 256 and at least the third byte; its low six bits are those of the third byte, and its top two bits are the or of the top two bits of both bytes |
| Mbr.CylinderBits | 2-fs/fat32/src/mbr.rs:17 | the or of the masked second byte with the third byte, split at bit 6 |
| Mbr.Cylinder10 | 2-fs/fat32/src/mbr.rs:16-18 | the ten-bit cylinder: the low byte is the third CHS byte, bits 8-9 are the top bits of the second |
| Mbr.Cylinder10RoundTrip | 2-fs/fat32/src/mbr.rs:13-18 | every sector below 64 and cylinder below 1024 is read back from its encoding |
| Mbr.CylinderLosesHighBits | 2-fs/fat32/src/mbr.rs:17 | as written, a stored cylinder 768 reads as 192 |
| Mbr.BootStatusOf | 2-fs/fat32/src/mbr.rs:59-65 | 0x00 is No, 0x80 is Active, every other byte is Unknown (each iff) |
| Mbr.IsFat32 | 2-fs/fat32/src/mbr.rs:91-96 | a partition is FAT32 iff its type byte is 0x0B or 0x0C (a predicate with no further contract) |
| Mbr.ReadSignature | 2-fs/fat32/src/mbr.rs:141-147 | the signature is valid iff it is 0xAA55; `Decode` proves this is bytes 510-511 being 0x55 0xAA |
| Mbr.DecodeEntry | 2-fs/fat32/src/mbr.rs:79-88 | the 16 bytes of an entry as flag, CHS start, type, CHS end and two little-endian u32s; `EntryRoundTrip` and `EntryBytesRoundTrip` prove it inverse to `EncodeEntry` |
| Mbr.EncodeChs | 2-fs/fat32/src/mbr.rs:6-10 | the three CHS bytes decode to the CHS address they encode |
| Mbr.EncodeEntry | 2-fs/fat32/src/mbr.rs:79-88 | a partition entry occupies 16 bytes |
| Mbr.EncodeTable | 2-fs/fat32/src/mbr.rs:120 | the four entries occupy 64 bytes |
| Mbr.TableSlice | 2-fs/fat32/src/mbr.rs:120 | entry i sits at bytes [16i, 16i+16) of the table |
| Mbr.Decode | 2-fs/fat32/src/mbr.rs:116-122 | decoding gives a 436-byte bootstrap, a 10-byte id, four entries, and a signature that is valid iff bytes 510 and 511 are 0x55 0xAA |
| Mbr.Encode | 2-fs/fat32/src/mbr.rs:116-122 | a well-formed record is 512 bytes |
| Mbr.EntryRoundTrip | 2-fs/fat32/src/mbr.rs:79-88 | decoding an encoded entry gives it back |
| Mbr.EntryBytesRoundTrip | 2-fs/fat32/src/mbr.rs:79-88 | encoding a decoded entry gives its 16 bytes back |
| Mbr.DecodeEncode | 2-fs/fat32/src/mbr.rs:165 | reading a well-formed record's 512 bytes gives the record back |
| Mbr.TableRoundTrip | 2-fs/fat32/src/mbr.rs:165 | the decoded entries re-encode to bytes 446..510 of the sector |
| Mbr.EncodeDecode | 2-fs/fat32/src/mbr.rs:165 | every byte of the sector survives decoding (the layout loses nothing) |
| Mbr.FirstRejected | 2-fs/fat32/src/mbr.rs:169-173 | the lowest entry index whose flag the test rejects, with none rejected before it; none when no entry is rejected |
| Mbr.CheckRecord | 2-fs/fat32/src/mbr.rs:166-174 | a bad signature is reported before any entry; `UnknownBootIndicator(i)` iff entry i is the first rejected; `Ok` with the record iff none is |
| Mbr.ReadRecord | 2-fs/fat32/src/mbr.rs:156-175 | a device error e is `Io(e)`; a read of fewer than 512 bytes is `Io(UnexpectedEof)`; an accepted record is well formed and re-encodes to the first 512 bytes of sector 0; a full read is `CheckRecord` of the decoded first 512 bytes |
| Mbr.From | 2-fs/fat32/src/mbr.rs:156-175 | the method's result is `ReadRecord` with the test as written (device error, short read, signature, first known flag) |
| Mbr.RejectsKnownFlag | 2-fs/fat32/src/mbr.rs:170 | the per-entry test as written rejects every status that is not unknown; `KnownFlagsRejectedAsWritten` and `AcceptedAsWrittenOnlyWithUnknownFlags` state its effect |
| Mbr.KnownFlagsRejectedAsWritten | 2-fs/fat32/src/mbr.rs:170 | as written, an empty table with a valid signature is refused at entry 0, which the documented test accepts |
| Mbr.AcceptedAsWrittenOnlyWithUnknownFlags | 2-fs/fat32/src/mbr.rs:169-174 | as written, an accepted record has no flag 0x00 or 0x80 |
| Mbr.ReadIntended | 2-fs/fat32/src/mbr.rs:150-155 | with the documented test, a full sector is accepted iff its signature is valid and every flag is 0x00 or 0x80, and the record re-encodes to the sector |
| Clusters.From | 2-fs/fat32/src/vfat/cluster.rs:7-9 | a cluster number is below 2^28; raw values below 2^28 are kept; only the top four bits are dropped |
| Clusters.ClusNum | 2-fs/fat32/src/vfat/cluster.rs:19-21 | the number rebuilds the same cluster |
| Clusters.IsValid | 2-fs/fat32/src/vfat/cluster.rs:16-18 | a cluster can hold data iff its number is at least 2; it is the precondition of `Index` (a predicate with no further contract) |
| Clusters.Index | 2-fs/fat32/src/vfat/cluster.rs:13-15 | the index of a valid cluster is its number minus 2 |
| Clusters.FromClusNum | 2-fs/fat32/src/vfat/cluster.rs:7-9 | `from(c.clus_num())` is c |
| Clusters.FromIgnoresTopBits | 2-fs/fat32/src/vfat/cluster.rs:8 | raw values differing only in the top four bits give the same cluster |
| Clusters.IndexInjective | 2-fs/fat32/src/vfat/cluster.rs:13-18 | distinct valid clusters have distinct indices, all below 2^28-2 |
| Fat.Masked | 2-fs/fat32/src/vfat/fat.rs:28 | the masked entry is below 2^28 |
| Fat.StatusOf | 2-fs/fat32/src/vfat/fat.rs:27-38 | each status holds iff the masked value is in its range (0 free; 1 and 0x0FFFFFF6 reserved; 2..0x0FFFFFF5 data; 0x0FFFFFF7 bad; 0x0FFFFFF8.. end of chain); a data cluster is valid and carries the masked value; the unreachable arm is never taken |
| Fat.StatusIgnoresTopBits | 2-fs/fat32/src/vfat/fat.rs:28 | entries equal in their low 28 bits have the same status |
| Fat.DataRoundTrip | 2-fs/fat32/src/vfat/fat.rs:31-32 | an entry rebuilt from its next cluster has the same status |
| Fat.StatusExamples | 2-fs/fat32/src/vfat/fat.rs:29-35 | sample entries, including ones with top bits set |
| StackVector.StackVec.New | 1-shell/stack-vec/src/lib.rs:25-27 | an empty vector over the given storage |
| StackVector.StackVec.WithLen | 1-shell/stack-vec/src/lib.rs:37-40 | requires len <= storage length; the first len slots are the contents |
| StackVector.StackVec.Capacity | 1-shell/stack-vec/src/lib.rs:43-45 | capacity is the storage length |
| StackVector.StackVec.Len | 1-shell/stack-vec/src/lib.rs:76-78 | the length is the number of elements and at most the capacity |
| StackVector.StackVec.IsEmpty | 1-shell/stack-vec/src/lib.rs:81-83 | empty iff there are no elements |
| StackVector.StackVec.IsFull | 1-shell/stack-vec/src/lib.rs:86-88 | full iff the elements fill the capacity |
| StackVector.StackVec.Truncate | 1-shell/stack-vec/src/lib.rs:50-54 | the length becomes min(len, n); the contents are the old prefix |
| StackVector.StackVec.AsSlice | 1-shell/stack-vec/src/lib.rs:65-67 | the slice is the whole storage, slots past `len` included, and begins with the contents |
| StackVector.StackVec.IntoSlice | 1-shell/stack-vec/src/lib.rs:60-62 | hands back the storage itself, all of it |
| StackVector.StackVec.Push | 1-shell/stack-vec/src/lib.rs:96-104 | `Err` iff full, then nothing changes; otherwise slot len becomes x, every other slot is kept and x is appended to the contents |
| StackVector.StackVec.Pop | 1-shell/stack-vec/src/lib.rs:110-117 | `None` iff empty; otherwise returns the last element and drops it; storage is untouched |
| StackVector.PushThenPop | 1-shell/stack-vec/src/lib.rs:96-117 | push then pop on a vector with room returns the element and restores length and contents |
| Shell.Split | os/kernel/src/shell.rs:27 | splitting on ' ' gives at least one piece, none containing a space |
| Shell.Words | os/kernel/src/shell.rs:27 | the kept pieces are non-empty pieces of the split |
| Shell.WordsAppend | os/kernel/src/shell.rs:27 | filtering commutes with concatenation and keeps a single piece iff it is non-empty: exactly the non-empty pieces, each once, in order |
| Shell.JoinSplit | os/kernel/src/shell.rs:27 | joining the pieces with spaces gives the line back |
| Shell.Arguments | os/kernel/src/shell.rs:27 | the pieces of the line split on ' ' with the empty ones filtered out; its properties are `ArgumentsCharacters`, `ArgumentsEmptyIffBlank` and `ArgumentsAreWords` |
| Shell.ArgumentsCharacters | os/kernel/src/shell.rs:27 | the arguments, concatenated, are exactly the line's non-space characters |
| Shell.ArgumentsEmptyIffBlank | os/kernel/src/shell.rs:27-33 | a line has no arguments iff every character is a space |
| Shell.SplitNoSpace | os/kernel/src/shell.rs:27 | a line without spaces is a single argument |
| Shell.ArgumentsAreWords | os/kernel/src/shell.rs:27 | every argument is non-empty and has no space |
| Shell.ParseResult | os/kernel/src/shell.rs:25-36 | what `parse` returns; its outcomes are stated by `ParseOutcomes` |
| Shell.Path | os/kernel/src/shell.rs:46-48 | the first argument; `ParseOutcomes` proves it non-empty and free of spaces |
| Shell.ParseOutcomes | os/kernel/src/shell.rs:25-36 | `TooManyArgs` iff there are more arguments than slots; `Empty` iff the line is blank; otherwise a command with every argument, whose path is the first |
| Shell.Parse | os/kernel/src/shell.rs:25-36 | the `StackVec` loop yields `ParseResult` and leaves the arguments in the buffer |
| Shell.Execute | os/kernel/src/shell.rs:38-43 | a command runs iff its path is `echo` |
| Shell.EditStep | os/kernel/src/shell.rs:95-110 | the line stays within capacity; the line is unchanged iff the bell is the whole echo (and the byte was not a stored bell) |
| Shell.EraseOnEmptyRings | os/kernel/src/shell.rs:95-97 | backspace or delete on an empty line keeps it empty and echoes only the bell |
| Shell.FullLineRings | os/kernel/src/shell.rs:104-106 | any other byte on a full line keeps the line and echoes only the bell |
| Shell.EditAll | os/kernel/src/shell.rs:92-117 | the line never exceeds the buffer |
| Shell.EraseUndoesType | os/kernel/src/shell.rs:95-110 | backspace or delete right after an ordinary byte restores the line and echoes 8, ' ', 8 |
| Shell.TypingAppends | os/kernel/src/shell.rs:104-110 | ordinary bytes that fit are appended and echoed |
| Shell.NewlineIsOrdinaryAsWritten | os/kernel/src/shell.rs:104-115 | as written, CR and LF are stored and echoed like any byte |
| Shell.Text | os/kernel/src/shell.rs:113 | an ASCII line becomes text of the same length whose character i is byte i; a line with a byte of 128 or more becomes the empty text |
| Shell.ReadlineStep | os/kernel/src/shell.rs:94-110 | one pass of the loop on the `StackVec` is `EditStep` |
| Shell.Readline | os/kernel/src/shell.rs:87-118 | the loop over the delivered bytes ends in the line and echo of `EditAll` |
| Shell.BufferStep | os/kernel/src/shell.rs:95-110 | one byte of the loop on the whole buffer and the length: the first len bytes are `EditStep`'s line, and every slot except the one a push writes keeps its byte, so a pop leaves the erased byte in place |
| Shell.ReadlineOrderFixed | os/kernel/src/shell.rs:111-114 | the loop with only the arm order corrected, parsing the whole buffer; the property is `EchoLineOrderFixedAsWritten` |
| Shell.EchoLineOrderFixedAsWritten | os/kernel/src/shell.rs:113 | with only the arm order corrected, `echo` and CR parse to one 512-character argument that starts with `echo`, which does not run |
| Shell.ReadlineIntended | os/kernel/src/shell.rs:87-118 | readline as intended; the property is `ReadlineSubmitsAtFirstNewline` |
| Shell.ReadlineSubmitsAtFirstNewline | os/kernel/src/shell.rs:111-115 | the intended readline parses the line edited from the bytes before the first CR or LF, and gives nothing before one arrives |
| Shell.EchoText | os/kernel/src/shell.rs:113 | the bytes of `echo` read as the text "echo" |
| Shell.EchoParses | os/kernel/src/shell.rs:114 | "echo" parses to the one-argument command `echo` |
| Shell.EchoLineExample | os/kernel/src/shell.rs:104-115 | typing `echo` and CR: as written the CR is stored; as intended `echo` runs |
| Shell.EchoLineIntended | os/kernel/src/shell.rs:111-115 | the intended readline turns `echo` and CR into the command `echo` |
| Align.SaturatingAdd | os/kernel/src/allocator/util.rs:23 | the sum, or the largest usize when it would overflow |
| Align.AlignDown | os/kernel/src/allocator/util.rs:8-13 | requires a power of two; the result is at most addr, a multiple of align, less than align below addr |
| Align.AlignUp | os/kernel/src/allocator/util.rs:22-24 | a multiple of align; without overflow, at least addr and less than align above it |
| Align.AlignDownFixedIffAligned | os/kernel/src/allocator/util.rs:12 | align_down fixes addr iff addr is aligned |
| Align.AlignDownGreatest | os/kernel/src/allocator/util.rs:12 | align_down is the greatest aligned address not above addr |
| Align.AlignUpLeast | os/kernel/src/allocator/util.rs:22-24 | without overflow, align_up is the least aligned address not below addr |
| Align.AlignUpAligned | os/kernel/src/allocator/util.rs:22-24 | an aligned address is its own align_up, even at the top of the range |
| Align.AlignUpIdempotent | os/kernel/src/allocator/util.rs:22-24 | align_up twice is align_up once |
| Align.AlignUpSaturates | os/kernel/src/allocator/util.rs:23 | at the top of the range the saturating add makes align_up return less than addr |
| Align.AlignUpChecked | os/kernel/src/allocator/util.rs:17-24 | align_up with overflow reported: a result is aligned, at least addr and within align of it; none iff no aligned address is at or above addr |
| BinAllocator.CeilLog2 | os/kernel/src/allocator/bin.rs:48 | the least exponent whose power of two is at least n |
| BinAllocator.NextPowerOfTwo | os/kernel/src/allocator/bin.rs:48 | a power of two at least n |
| BinAllocator.NextPowerOfTwoLeast | os/kernel/src/allocator/bin.rs:48 | `next_power_of_two` is a power of two at least n and at most any such |
| BinAllocator.TrailingZeros | os/kernel/src/allocator/bin.rs:39 | 2 to the number of trailing zeros is at most n |
| BinAllocator.TrailingZerosPow2 | os/kernel/src/allocator/bin.rs:39 | 2^k has k trailing zeros |
| BinAllocator.BinSize | os/kernel/src/allocator/bin.rs:44-50 | a bin size is at least 8 and at least the request |
| BinAllocator.BinSizeIsPow2 | os/kernel/src/allocator/bin.rs:44-50 | from 8 up, a bin size is 2^k with k at least 3 |
| BinAllocator.BinSizeLeast | os/kernel/src/allocator/bin.rs:44-50 | a bin size is the least power of two that is at least 8 and covers the request |
| BinAllocator.BinNum | os/kernel/src/allocator/bin.rs:35-41 | the bin index of a request; `BinNumSize` and `BinNumMonotone` state its properties |
| BinAllocator.BinNumSize | os/kernel/src/allocator/bin.rs:35-41 | bin k serves blocks of 2^(k+3) bytes |
| BinAllocator.BinNumMonotone | os/kernel/src/allocator/bin.rs:35-41 | a larger request never maps to a lower bin |
| BinAllocator.FirstNonEmpty | os/kernel/src/allocator/bin.rs:80-87 | the first non-empty bin from `from` on, all before it empty; none when all are empty |
| BinAllocator.AllocSpec | os/kernel/src/allocator/bin.rs:71-95 | `alloc` as written, over the heap state; its properties are `AllocFrame`, `AllocFromBin` and `BumpReturnsNewStart` |
| BinAllocator.AllocHit | os/kernel/src/allocator/bin.rs:80-86 | when bin j is the first with a free block, `alloc` returns its head, pops it, moves start by the bin size and adds the waste to external_frag |
| BinAllocator.AllocBump | os/kernel/src/allocator/bin.rs:88-94 | when no bin has a block and the aligned start is in the region, `alloc` moves start past the block and returns the new start |
| BinAllocator.BinCovers | os/kernel/src/allocator/bin.rs:80-86 | a bin at or above the request's bin holds blocks at least as large as the request |
| BinAllocator.AllocFrame | os/kernel/src/allocator/bin.rs:71-95 | a failure changes nothing; `Exhausted` iff the request is over max_size, or no bin has a block and the aligned start is past end; external_frag never decreases |
| BinAllocator.AllocFromBin | os/kernel/src/allocator/bin.rs:80-87 | the head of the first non-empty bin from `bin_num` is returned and popped; other bins are untouched; its block size covers the request |
| BinAllocator.BumpReturnsNewStart | os/kernel/src/allocator/bin.rs:88-94 | as written, the bump path returns the new start, aligned start plus the bin size |
| BinAllocator.BumpLeavesRegion | os/kernel/src/allocator/bin.rs:89-94 | on the empty region [0, 8], an 8-byte request gets address 8 as written and 0 as intended |
| BinAllocator.AllocIntended | os/kernel/src/allocator/bin.rs:51-58 | `alloc` as its documentation describes; the property is `IntendedBumpInRegion` |
| BinAllocator.IntendedBumpInRegion | os/kernel/src/allocator/bin.rs:51-58 | the intended bump returns an aligned address at or after start whose block fits before end; the new start is just past it |
| BinAllocator.DeallocSpec | os/kernel/src/allocator/bin.rs:117-125 | `dealloc` over the heap state; its properties are `DeallocFrame` and `DeallocThenAlloc` |
| BinAllocator.DeallocFrame | os/kernel/src/allocator/bin.rs:117-125 | the freed block heads its bin and no other bin changes; start moves back by the bin size; external_frag is kept |
| BinAllocator.DeallocThenAlloc | os/kernel/src/allocator/bin.rs:71-125 | freeing a block and allocating the same layout returns that block and restores the bins and start |
| BinAllocator.Allocator.constructor | os/kernel/src/allocator/bin.rs:24-33 | all bins empty, max_size is `bin_size(end - start)`, no fragmentation |
| BinAllocator.Allocator.FindBin | os/kernel/src/allocator/bin.rs:80-87 | the scan finds `FirstNonEmpty(bins, num)` |
| BinAllocator.Allocator.Alloc | os/kernel/src/allocator/bin.rs:71-95 | the new state and result are `AllocSpec` of the old state |
| BinAllocator.Allocator.Dealloc | os/kernel/src/allocator/bin.rs:117-125 | the new state is `DeallocSpec` of the old state |
| Durations.Millis | 1-shell/ferris-wheel/run-pass/trait-impl.rs:11-17 | milliseconds as given; seconds times 1000; minutes times 60000; never overflowing a u64 |
| Durations.Equal | 1-shell/ferris-wheel/run-pass/trait-impl.rs:19-23 | two durations are equal when they last the same number of milliseconds; its properties are `EqualIsEquivalence`, `EqualSameUnit` and `MinutesAsSeconds` |
| Durations.EqualIsEquivalence | 1-shell/ferris-wheel/run-pass/trait-impl.rs:19-23 | duration equality is reflexive, symmetric and transitive |
| Durations.EqualSameUnit | 1-shell/ferris-wheel/run-pass/trait-impl.rs:19-23 | in one unit, equal iff identical |
| Durations.MinutesAsSeconds | 1-shell/ferris-wheel/run-pass/trait-impl.rs:14-15 | m minutes equal 60m seconds, and 60m fits a u32 |
| Durations.EqualExamples | 1-shell/ferris-wheel/run-pass/trait-impl.rs:26-29 | the four compared pairs are equal; one second is not one minute |

## Left out

- The `BlockDevice` trait, `read_all_sector` and `std::io::Cursor` are not part of this model. The device is the value `Disk`: whole sectors that read or fail.
- Cache.CachedDevice.ReadSector: `buf.write(data)` is modelled as copying `min(|data|, |buf|)` bytes. Short writes that `Write` would allow are not modelled.
- Cache.VirtualToPhysical: u64 overflow of `logical_offset * factor` and of `start + physical_offset` is not modelled; numbers are unbounded.
- The `NotFound` branches of `get` and `get_mut` are not modelled. The model proves the key is always present there.
- `Debug` impls of the cache, MBR and allocator are left out: they are formatting only.
- The `transmute` of the sector into a packed struct is replaced by explicit little-endian field decoding at the offsets of the packed layout (436, 10, 4 x 16 and 2 bytes). `Mbr.DecodeEncode` and `Mbr.EncodeDecode` prove that `Decode` and `Encode` are inverse to each other. They do not relate `Decode` to the compiler's struct layout: the field offsets are written down, not derived.
- Mbr.ReadRecord: `device.read_sector(0, &mut buf)` reads into a 512-byte buffer, and how much a device copies is up to its implementation. The model reads the whole sector and uses its first 512 bytes, so a sector longer than 512 bytes is not an error.
- `BootStatus::is_active` is covered by `BootStatusOf`'s `Active` case; it has no member of its own.
- StackVector.StackVec: `as_mut_slice` and the `Deref`/`IntoIterator` impls (FIXMEs in the source) are left out. `pop`'s `clone` is a plain copy.
- Shell.Text: only ASCII lines are decoded. Any byte at or above 128 makes the text empty, whereas real UTF-8 multi-byte sequences would decode.
- Shell.Readline: the console is a finite sequence of input bytes and the echo is returned as a sequence. The infinite `shell` loop, `kprint!`, `CONSOLE.lock` and `cmd::echo`'s printing are left out.
- Shell.Execute: it does not model what `echo` prints, only whether a command ran.
- Clusters.Index: requires a valid cluster, because for clusters 0 and 1 the u32 subtraction underflows and panics.
- Align.AlignDown: requires a power of two, where the source panics. For `align == 0` the source's `align - 1` underflows.
- Align.AlignUp: its "at least addr" guarantee is stated only when `addr + align - 1` does not overflow. Above that the source saturates, as `Align.AlignUpSaturates` shows.
- BinAllocator.Allocator.Alloc: requires `AllocFits`, which excludes the overflows the source does not guard against:
  - `next_power_of_two` above 2^63;
  - a bin number past the 32 bins;
  - `start + bin_size` or `end + bin_size` beyond the largest address.
- BinAllocator.Allocator.Dealloc: requires `DeallocFits` (bin in range, `start >= bin_size`). The source underflows there, and the caller's safety contract excludes it.
- BinAllocator.Allocator.constructor: requires `start <= end`, where the source's `end - start` underflows. `max_size` is the unbounded `BinSize(end - start)`. For a region of more than 2^63 bytes the source's `next_power_of_two` overflows; the model does not capture this.
- BinAllocator.Allocator: `external_frag` is unbounded, so its u64 overflow is not modelled. The intrusive `LinkedList` that stores free blocks inside freed memory is modelled as a sequence of addresses, head first. The alignment `assert!` is a precondition.
- The FAT32 `VFat` file system, `ebpb.rs` and chain walking are not part of this model.

## Findings

| source | as written | input that shows it | evidently intended | confidence | as-written member | corrected member |
|---|---|---|---|---|---|---|
| 2-fs/fat32/src/mbr.rs:170 | the entry loop returns `UnknownBootIndicator(i)` when the flag is NOT unknown | a sector of zeros ending 0x55 0xAA (four inactive entries) is refused at entry 0 | reject only flags other than 0x00 and 0x80, as the doc comment at lines 153-154 says | high, not executed | Mbr.KnownFlagsRejectedAsWritten | Mbr.ReadIntended |
| 2-fs/fat32/src/mbr.rs:17 | `sector_upper & 0xC0` is or-ed in place, without a shift | bytes (0, 193, 0) hold cylinder 768 but read as 192 | the two bits become bits 8 and 9 of a ten-bit cylinder | medium, not executed | Mbr.CylinderLosesHighBits | Mbr.Cylinder10RoundTrip |
| os/kernel/src/shell.rs:104-111 | the `_` arm precedes `CR \| LF`, so carriage return and line feed are stored like any byte | typing `echo` then CR: the line holds the CR and nothing runs | CR or LF ends the line and the line is parsed | high, not executed | Shell.EchoLineExample | Shell.ReadlineSubmitsAtFirstNewline |
| os/kernel/src/shell.rs:113 | the line is read from `stack.as_slice()`, which is the whole 512-byte buffer, not the `len` bytes pushed | with the arm order corrected, typing `echo` then CR on the zeroed buffer parses to one argument, `echo` followed by 508 NUL characters, and no command runs | parse only the line's bytes, `stack.as_slice()[..stack.len()]` | high, not executed | Shell.EchoLineOrderFixedAsWritten | Shell.EchoLineIntended |
| os/kernel/src/allocator/bin.rs:89-94 | the bump path checks only `cur > end` and returns the new `start`, `cur + bin_size` | empty region [0, 8], 8-byte request aligned to 8: the result is address 8, whose block lies past `end` | return `cur`, and fail unless `cur + bin_size <= end` | high, not executed | BinAllocator.BumpLeavesRegion | BinAllocator.IntendedBumpInRegion |
| os/kernel/src/allocator/util.rs:23 | `saturating_add` clamps at the largest address, so the result can be below `addr`, against the doc comment at line 17 | `align_up(2^64 - 1, 8)` is `2^64 - 8` | report that no aligned address exists | medium, not executed | Align.AlignUpSaturates | Align.AlignUpChecked |
