# ShadowOS storage stack and kernel buffers, modelled in Dafny

This project models two parts of ShadowOS.

The first is the read-only storage stack of its Limine-based boot stage:
- the volume byte reader with its one-block cache;
- the GPT and MBR/EBR partition resolver and the volume index lookups;
- the FAT12/16/32 driver and the ISO 9660 driver with Rock Ridge names;
- the small helpers of `misc.s2.c`: BCD, hexadecimal digits, `strtoui` and
  `get_absolute_path`.

The second is the kernel's in-memory data structures:
- the keyboard ring buffer and scancode translator;
- the shell's line buffer, format buffer, command splitter and key dispatch;
- the RAM disk block store;
- the text cursor of the framebuffer writer.

Every on-disk structure is decoded from bytes: little-endian fields,
packed 12/16/32-bit FAT entries, ISO directory records and Rock Ridge "NM"
entries. Loops and in-place updates are stated against reference
functions over those bytes, and lemmas relate the reference functions to
the guarantees the drivers rely on.

**The storage device.** It is a byte image with a sector size, a "no
media" flag and a set of `(lba, count)` requests that fail transiently.
- `Volumes.Read(v, loc, count)` is the volume's bytes `[loc, loc + count)`.
  It is None when `volume_read`'s bounds check rejects the request, when
  the first sector is misaligned, or when any byte lies off the device.
- On a device without transient failures, `volume_read` succeeds whenever
  `Read` does (for images below 2^64 bytes) and then delivers the same
  bytes. It can also succeed past the device's end, where `Read` is None
  (see "Left out").
- The partition and file-system drivers are functions over `Read`.
- The cache (`BlockCache.CachedVolume`) is a class whose fields the
  methods update in place. Its retry loop and its copy loop are proved
  against `Read`.

**The C drivers.** They keep state in buffers and linked lists, and the
model does the same:
- `IsoVolume.Registry` holds the per-volume context list.
- The FAT long-name buffer is an `array` edited by `ClearName`, `LfnEntry`
  and `TerminateName`.
- The path walks, directory scans and extent collection are `method`s with
  loops, each proved equal to a function that states the driver's
  decisions.

**The Rust structures.** Their fields are updated in place, so they are
classes over arrays and sequences: `KeyBuffer`, `KeyboardState`,
`LineBuffer`, `FmtBuf`, `RamDisk` and `FramebufferWriter`.
- The framebuffer's pixels are abstracted to a grid of character cells.
- A cell is either cleared or holds the glyph that `render_char` drew.
- The pixel arithmetic that `render_char` relies on is proved separately:
  the channel packing of `color_to_pixel` and the non-overlap of pixel
  stores.

Standards the code follows and the model keeps to:
- the GPT header and entry layout of section 5.3 of the UEFI Specification;
- the FAT type thresholds of Microsoft's FAT32 File System Specification;
- directory records and volume descriptors of sections 8 and 9 of
  ECMA-119;
- the "NM" entry of section 4.1.4 of the Rock Ridge Interchange Protocol.

## Model

| member | source | states |
|---|---|---|
| Volumes.DiskRead | limine/common/lib/part.s2.c:48-57 | One transfer succeeds exactly when media is present, the count is non-zero, the request is not a transient failure and it lies on the device. |
| Volumes.BlockSize | limine/common/lib/part.s2.c:87 | A cache block holds at least one whole sector. |
| Volumes.Read | limine/common/lib/part.s2.c:72-106 | A successful read delivers exactly `count` bytes. |
| Volumes.ReadBounds | limine/common/lib/part.s2.c:77-85 | A request the size check rejects fails. With a known sector count, an accepted read lies inside the volume and below 2^64. Its bytes are the device bytes at the volume's origin plus `loc`. |
| Volumes.ReadSub | limine/common/lib/part.s2.c:89-103 | Any sub-range of a successful read reads the same bytes, so block boundaries leave no seams. |
| Volumes.ReadBytewise | limine/common/lib/part.s2.c:89-103 | A read succeeds exactly when each of its bytes can be read alone, and then it is those bytes. |
| Volumes.BlockLbaBytes | limine/common/lib/part.s2.c:33-45 | The sector `cache_block` reads for block `b` starts `b` blocks past the volume's origin. |
| BlockCache.DiskReadSectors | limine/common/lib/part.s2.c:48-50 | A transfer returns the outcome of `DiskRead`. On success it puts the requested device bytes at the front of the buffer and leaves the rest alone. |
| BlockCache.RetryFill | limine/common/lib/part.s2.c:47-63 | The retry loop fails at once without media. It takes the first size that succeeds, dropping one sector per failure and stopping at 0. A full-size success is used as is. On a reliable device it reads the whole block or up to the device's end. |
| BlockCache.SlicesSnoc | limine/common/lib/part.s2.c:89-103 | Adding the next per-block chunk extends the run of in-order, gap-free chunks, each inside one cache block. |
| BlockCache.NextSlice | limine/common/lib/part.s2.c:91-102 | The chunk `min(count - progress, block_size - offset)` at block `(loc + progress) / block_size` extends the chunks to `progress + chunk`. |
| BlockCache.CachedVolume.constructor | limine/common/lib/part.s2.c:23-27 | A new volume has its cache allocated and not ready. |
| BlockCache.CachedVolume.CacheBlock | limine/common/lib/part.s2.c:19-70 | A ready cache holding the block returns true and changes nothing. Otherwise the cache succeeds exactly when the first sector is aligned, the sector arithmetic does not overflow and the retry loop finds a size. Success leaves the cache ready on that block; any failure leaves it not ready. |
| BlockCache.CachedVolume.CopyOut | limine/common/lib/part.s2.c:101 | Copies `n` cache bytes to the buffer at `at` and leaves every other buffer byte unchanged. |
| BlockCache.CachedVolume.VolumeRead | limine/common/lib/part.s2.c:72-106 | A request the bounds check rejects fails. A success cuts the range into per-block chunks covering `[loc, loc + count)` in order. On a reliable device a success puts the device bytes at the front of the buffer wherever they exist, which is all of `Read` when `Read` succeeds. Conversely, on a reliable device of fewer than 2^64 bytes, a read that `Read` delivers succeeds. Buffer bytes past `count` are untouched. |
| BlockCache.CachedVolume.CopyRange | limine/common/lib/part.s2.c:89-103 | The copy loop: on success the chunks cover `[loc, loc + count)` in order, and on a reliable device the buffer holds every on-device byte of the range. On a reliable device of fewer than 2^64 bytes, the loop succeeds whenever `Read` does. The cache invariant is kept. |
| BlockCache.CachedVolume.ReadChunk | limine/common/lib/part.s2.c:90-103 | One loop turn succeeds exactly when block `(loc + progress) / block_size` was already cached or can be cached, and a success leaves exactly that block cached. It copies a non-empty chunk of it, and the chunks so far stay in order, gap-free and each inside one block. On a reliable device the on-device bytes up to `progress + chunk` are in the buffer, and the turn succeeds whenever `Read` of the whole range does. |
| BlockCache.CachedVolume.ServeChunk | limine/common/lib/part.s2.c:96-102 | Copying the chunk from the cached block extends the on-device bytes at the front of the buffer by `chunk` bytes, on a reliable device. Bytes past `count` are untouched. |
| BlockCache.CachedVolume.ChunkFromCache | limine/common/lib/part.s2.c:47-67 | On a reliable device, every cache byte of the chunk whose device position lies on the device holds that device byte, even when the transfer was shrunk at the device's end. |
| BlockCache.CachedVolume.CacheFor | limine/common/lib/part.s2.c:91-97 | The block is `(loc + progress) / block_size` and the offset its remainder. Caching it succeeds exactly when it was already cached or can be cached, and then leaves it cached. On a reliable device of fewer than 2^64 bytes, it succeeds whenever `Read` of the whole range does. |
| BlockCache.BlockIndex | limine/common/lib/part.s2.c:91 | The block holding byte `x` starts at or before `x` and ends after it. |
| BlockCache.BlockCacheable | limine/common/lib/part.s2.c:29-63 | On a reliable, aligned device with media, a block whose start lies on a device of fewer than 2^64 bytes can be cached: the sector arithmetic does not overflow and the retry loop succeeds. |
| Partitions.Carve | limine/common/lib/part.s2.c:267-280 | A carved partition keeps the drive of its parent and takes the given partition number, geometry and backing device. A well-formed parent gives a well-formed partition. |
| Partitions.ParseGptHeader | limine/common/lib/part.s2.c:108-130 | Decoded header fields stay within their 32- and 64-bit widths. |
| Partitions.ParseGptEntry | limine/common/lib/part.s2.c:132-143 | Decoded entry LBAs stay within 64 bits. |
| Partitions.GptLocate | limine/common/lib/part.s2.c:183-205 | The header is found at 512 or 4096, and 4096 only when 512 lacks "EFI PART". The result is None exactly when neither offset has the signature. The header is the one parsed at the found offset. |
| Partitions.GptGetGuid | limine/common/lib/part.s2.c:145-178 | A disk GUID is returned exactly when a header is found with revision 0x00010000, and it is that header's GUID. |
| Partitions.ScaleToSectors | limine/common/lib/part.s2.c:246 | Logical blocks of 512 bytes are one sector each; blocks of 4096 bytes are eight. |
| Partitions.GptGetPart | limine/common/lib/part.s2.c:180-302 | INVALID_TABLE comes only from a missing signature, a wrong revision, a short entry size or an overflowing entry offset. A missing signature or a wrong revision always gives it. A short entry size gives it only for an index inside the entry count, because the index is checked first: an index past the entry count gives END_OF_TABLE whatever the entry size. A found partition comes from a readable entry with valid geometry, is numbered `index + 1`, is backed by the disk and carries the entry's unique GUID. |
| Partitions.GptGeometry | limine/common/lib/part.s2.c:236-265 | An entry gives geometry exactly when its GUID is non-zero, `ending >= starting` and no 64-bit product or sum overflows. The geometry is `starting * (lb/512)` and `(ending - starting + 1) * (lb/512)`. |
| Partitions.GptUnusedEntry | limine/common/lib/part.s2.c:236-243 | An all-zero unique GUID, or an ending LBA below the starting one, gives NO_PARTITION. |
| Partitions.GptPartGeometry | limine/common/lib/part.s2.c:231-265 | Once the header, index, entry size and offset pass, the entry read decides: an unreadable entry gives END_OF_TABLE, an entry with a zero GUID, an ending LBA below the starting one or a 64-bit overflow of the scaled start, size or count gives NO_PARTITION, and the partition is found exactly when the entry is readable and its geometry is valid, with that start, that count and the entry's unique GUID. |
| Partitions.ParseMbrEntry | limine/common/lib/part.s2.c:304-311 | Decoded MBR entry fields stay within 32 bits. |
| Partitions.FilesystemIsNotMbr | limine/common/lib/part.s2.c:334-356 | A boot sector marked NTFS, FAT, FAT32 or ext2 is never taken for an MBR. |
| Partitions.MbrGetId | limine/common/lib/part.s2.c:359-370 | The result is the 32-bit value at 0x1b8 of a valid MBR, and 0 when the disk is not a valid MBR or the read fails. |
| Partitions.EbrTrail | limine/common/lib/part.s2.c:384-411 | The EBR sectors walked to reach logical partition `n` strictly increase and lie strictly inside the extended partition, so the walk cannot cycle. |
| Partitions.EbrTrailBounded | limine/common/lib/part.s2.c:401-410 | A completed walk of `n` steps implies the extended partition has more than `n` sectors. |
| Partitions.LogicalEbr | limine/common/lib/part.s2.c:379-411 | Logical index 256 or above, or a broken walk, gives no EBR. Index 0 uses sector 0, and any other found EBR lies strictly inside the extended partition. |
| Partitions.MbrGetLogicalPart | limine/common/lib/part.s2.c:375-474 | It never reports INVALID_TABLE. An index of 256 or above, or a broken EBR walk, gives END_OF_TABLE. A found partition is numbered `index + 5`, shares the extended partition's backing device and has no partition GUID. |
| Partitions.LogicalAt | limine/common/lib/part.s2.c:413-474 | An unreadable EBR entry gives END_OF_TABLE, and INVALID_TABLE never occurs. A found partition is numbered `index + 5`. |
| Partitions.LogicalPartGeometry | limine/common/lib/part.s2.c:413-452 | A logical partition is found exactly when its EBR entry is readable and has valid geometry, and it has that geometry. |
| Partitions.LogicalGeometry | limine/common/lib/part.s2.c:419-438 | Geometry exists exactly when the type and count are non-zero and the end fits in 64 bits. It starts at extended start + EBR sector + entry start. |
| Partitions.ExtendedVolume | limine/common/lib/part.s2.c:499-514 | The extended partition volume takes the entry's start and count, number `i + 1`, and the disk as backing. |
| Partitions.FindExtended | limine/common/lib/part.s2.c:484-497 | The slot found is at or after `i` and below 4. |
| Partitions.FindExtendedFound | limine/common/lib/part.s2.c:484-497 | The slot found holds a readable extended entry with a non-zero sector count. |
| Partitions.FindExtendedFirst | limine/common/lib/part.s2.c:484-497 | No slot before the one found holds an extended entry, so the first one wins. |
| Partitions.ExtendedSlotEntry | limine/common/lib/part.s2.c:487-497 | A slot is extended exactly when its entry is readable, of type 0x05 or 0x0f, and has a non-zero count. |
| Partitions.MbrGetPart | limine/common/lib/part.s2.c:476-570 | INVALID_TABLE occurs exactly when the disk is not a valid MBR. Indices 0-3 are primary and higher ones are logical, and a found partition is numbered `index + 1`. |
| Partitions.ExtendedOf | limine/common/lib/part.s2.c:483-519 | An extended partition exists exactly when some slot holds one. It is numbered after its slot and backed by the disk. |
| Partitions.ExtendedOfEntry | limine/common/lib/part.s2.c:483-516 | The extended partition has the geometry of the first extended slot's entry. |
| Partitions.MbrGetExtended | limine/common/lib/part.s2.c:483-519 | Without an extended slot the result is END_OF_TABLE; otherwise it is the logical lookup in the first one. |
| Partitions.MbrGetPrimary | limine/common/lib/part.s2.c:522-570 | An unreadable entry gives END_OF_TABLE. A found partition is numbered `index + 1` and backed by the disk. |
| Partitions.PrimaryPartGeometry | limine/common/lib/part.s2.c:522-549 | A primary partition is found exactly when its entry is readable with non-zero type and count. It has the entry's start and count and no partition GUID. |
| Partitions.PartGet | limine/common/lib/part.s2.c:572-589 | A negative index gives NO_PARTITION. The GPT answer is used unless it is INVALID_TABLE, in which case MBR is tried. |
| Partitions.PartGetFound | limine/common/lib/part.s2.c:572-589 | Any partition found has a non-negative index, is numbered `index + 1`, and is backed by and on the same drive as the disk. |
| Partitions.PartGetInvalid | limine/common/lib/part.s2.c:580-588 | INVALID_TABLE is returned exactly when GPT says INVALID_TABLE and the disk is not a valid MBR. |
| VolumeIndex.FindFrom | limine/common/lib/part.s2.c:595-606 | Returns the first matching index at or after `i`, or None exactly when nothing from `i` on matches. |
| VolumeIndex.First | limine/common/lib/part.s2.c:595-606 | Returns the first matching volume of the index, or None exactly when none matches. |
| VolumeIndex.VolumeGetByGuid | limine/common/lib/part.s2.c:594-607 | Returns the first volume whose file-system GUID or partition GUID equals the query, or None when there is none. |
| VolumeIndex.VolumeGetByFslabel | limine/common/lib/part.s2.c:609-618 | Returns the first volume with a valid label equal to the query, or None when there is none. |
| VolumeIndex.VolumeGetByCoord | limine/common/lib/part.s2.c:620-630 | Returns the first volume with that drive index, optical flag and partition number, or None when there is none. |
| VolumeIndex.FirstMatchWins | limine/common/lib/part.s2.c:620-630 | A matching volume at the front of the index is the one returned. |
| VolumeIndex.FindFromAppend | limine/common/lib/part.s2.c:594-607 | Appending volumes does not change a lookup that already succeeds. |
| VolumeIndex.GuidLookupStable | limine/common/lib/part.s2.c:594-607 | A GUID lookup that succeeds keeps its answer when more volumes are indexed. |
| FatContext.ParseBpb | limine/common/fs/fat32.s2.c:44-77 | Every decoded BPB field stays within its 8-, 16- or 32-bit width. |
| FatContext.FatTypeOf | limine/common/fs/fat32.s2.c:175-181 | The type is 12 below 4085 clusters, 16 from 4085 below 65525, and 32 from 65525 on. |
| FatContext.ParseContext | limine/common/fs/fat32.s2.c:102-216 | Any accepted context satisfies the geometry invariant: valid sector sizes, 1-4 FATs, non-zero sectors per FAT, and root and data starts that fit in 32 bits and derive from the BPB. |
| FatContext.ContextOf | limine/common/fs/fat32.s2.c:131-216 | The BPB checks and the derived geometry give a context satisfying the same invariant. |
| FatContext.ParseContextRejects | limine/common/fs/fat32.s2.c:106-170 | Init fails on an unreadable boot sector, a missing "FAT" signature, an invalid sectors-per-cluster, an invalid bytes-per-sector, a FAT count of 0 or above 4, or metadata sectors that reach the total. |
| FatContext.ParseContextAccepts | limine/common/fs/fat32.s2.c:160-188 | An accepted volume passed every check. Its type follows the cluster-count thresholds and its sectors-per-FAT is the field belonging to that type. |
| FatContext.FatIsNotMbr | limine/common/fs/fat32.s2.c:113-125 | A volume the FAT driver accepts is never a valid MBR for the partition resolver. |
| FatContext.ClusterBytes | limine/common/fs/fat32.s2.c:426 | A cluster is never empty. |
| FatContext.ClusterBytesBounds | limine/common/fs/fat32.s2.c:131-147 | A valid cluster is a whole number of 512-byte units, from 512 bytes to 128 * 4096 bytes. |
| FatTable.DecodeEntry | limine/common/fs/fat32.s2.c:250-295 | A FAT12 entry is below 0x1000, a FAT16 entry fits in 16 bits, and any entry is below 0x10000000 after the FAT32 mask. |
| FatTable.MapNext | limine/common/fs/fat32.s2.c:246-298 | A successful lookup read inside the FAT, and its value respects the width of the type. |
| FatTable.MapNextIsTableEntry | limine/common/fs/fat32.s2.c:246-298 | When the FAT is readable and the entry lies inside it, the lookup is the packed entry of the FAT bytes: low 12 or high 12 bits for FAT12, the 16-bit word, or the masked 32-bit word. |
| FatTable.MapNextOf | limine/common/fs/fat32.s2.c:246-298 | When the entry lies inside the FAT and its bytes read as `raw`, the lookup is the decoding of `raw`. |
| FatTable.DecodeIsTableEntry | limine/common/fs/fat32.s2.c:251-292 | Decoding the bytes read at the entry's offset gives the packed entry of the whole table. |
| FatTable.MaxClusters | limine/common/fs/fat32.s2.c:313-316 | The walk limit is 0xfee for FAT12, 0xffee for FAT16, and capped at 64 MiB of chain entries for FAT32. |
| FatTable.ChainUnique | limine/common/fs/fat32.s2.c:318-331 | A cluster has at most one chain. |
| FatTable.NoChain | limine/common/fs/fat32.s2.c:320-331 | A walk that exceeds the limit, or reaches a failing lookup, shows that no chain exists. |
| FatTable.CacheClusterChain | limine/common/fs/fat32.s2.c:303-348 | Out-of-range start clusters fail. A result is the chain: it starts at the initial cluster and each next element is the table entry of the previous one, within the limit. Failure for an in-range cluster means no chain exists, which covers cycles and corruption. |
| FatTable.ChainLength | limine/common/fs/fat32.s2.c:318-331 | The counting loop returns the length of the chain, or None exactly when there is none. |
| FatTable.ChainTurn | limine/common/fs/fat32.s2.c:321-325 | One turn of the counting loop: a failed map read rules out every chain, an entry that is not a cluster number ends a chain of the current length, and any other entry extends the walk. |
| FatTable.NoChainOf | limine/common/fs/fat32.s2.c:320-331 | The same as `NoChain`, stated for the table of a FAT context. |
| FatTable.StoreChain | limine/common/fs/fat32.s2.c:337-345 | The second pass writes exactly the chain the first pass counted. |
| FatTable.ChainSuccessor | limine/common/fs/fat32.s2.c:340-341 | The map entry of the `i`-th cluster of a chain is its `i + 1`-th cluster whenever there is one. |
| FatTable.ChainEntry | limine/common/fs/fat32.s2.c:337-345 | Every cluster of a chain has a readable FAT entry, and each but the last points to the next cluster. |
| FatTable.NoLocation | limine/common/fs/fat32.s2.c:356-367 | A block index past the chain, or a cluster below 2, maps to no disk byte. |
| FatTable.ChunkRead | limine/common/fs/fat32.s2.c:369-377 | A chunk read at `(data_start + (cluster - 2) * spc) * bps + offset` succeeds exactly when those file bytes are readable, and delivers them. |
| FatTable.ReadClusterChain | limine/common/fs/fat32.s2.c:350-383 | Returns true exactly when every byte of `[loc, loc + count)` maps to a readable disk byte. The buffer then holds those bytes, and bytes past `count` are untouched. |
| FatTable.ReadChunk | limine/common/fs/fat32.s2.c:355-380 | One loop turn copies a non-empty chunk inside one cluster, or fails exactly when the rest of the range is unreadable. |
| FatTable.ChunkPlaced | limine/common/fs/fat32.s2.c:369-377 | The bytes of a successful cluster read, copied to the buffer at `progress`, are the file bytes at `loc + progress` on. |
| FatNames.Field | limine/common/fs/fat32.s2.c:401-419 | A name field is its bytes upper-cased and padded with spaces to its width. |
| FatNames.Name83 | limine/common/fs/fat32.s2.c:397-423 | An 8.3 name is 11 bytes. |
| FatNames.FilenameTo83 | limine/common/fs/fat32.s2.c:397-423 | Succeeds exactly for names with a base of at most 8 bytes and at most one dot followed by at most 3 bytes. It then yields the upper-cased base and extension, each space-padded. |
| FatNames.Step83 | limine/common/fs/fat32.s2.c:404-420 | One turn of the conversion loop either gives up on a name that is not 8.3 or keeps the buffer equal to the padded base and extension of the prefix read so far. |
| FatNames.CharStep83 | limine/common/fs/fat32.s2.c:415-419 | At a byte other than '.', gives up exactly when the current field is full (the name then has no 8.3 form), and otherwise keeps the progress invariant. |
| FatNames.StoreBase | limine/common/fs/fat32.s2.c:419 | Storing an upper-cased byte of the base name keeps the buffer equal to the padded base of the longer prefix. |
| FatNames.StoreExtension | limine/common/fs/fat32.s2.c:419 | Storing an upper-cased byte of the extension keeps the buffer equal to the padded base and extension of the longer prefix. |
| FatNames.TwoDots | limine/common/fs/fat32.s2.c:405-409 | A second '.' makes a name not 8.3. |
| FatNames.LongBase | limine/common/fs/fat32.s2.c:415-418 | A base longer than 8 bytes makes a name not 8.3. |
| FatNames.LongExtension | limine/common/fs/fat32.s2.c:415-418 | An extension longer than 3 bytes makes a name not 8.3. |
| FatNames.Name83Upper | limine/common/fs/fat32.s2.c:419 | An 8.3 name holds no lower-case letter. |
| FatNames.LfnPut | limine/common/fs/fat32.s2.c:386-395 | Copies the low byte of each UCS-2 unit into the slots `[off, off + size)` that lie inside the buffer and changes nothing else. |
| FatNames.LfnCopy | limine/common/fs/fat32.s2.c:386-395 | The in-place copy leaves the buffer equal to `LfnPut` of its old contents. |
| FatDir.SequenceNumber | limine/common/fs/fat32.s2.c:511 | The sequence number is the low 5 bits. |
| FatDir.Fragments | limine/common/fs/fat32.s2.c:511-522 | Adding one LFN entry's fragments keeps the name buffer's length. |
| FatDir.Terminated | limine/common/fs/fat32.s2.c:527-533 | Trimming the name buffer keeps its length. |
| FatDir.LfnAfter | limine/common/fs/fat32.s2.c:503-533 | Processing one LFN entry keeps the name buffer's length. |
| FatDir.LfnChars | limine/common/fs/fat32.s2.c:520-522 | An LFN entry carries 13 name characters. |
| FatDir.TerminatedName | limine/common/fs/fat32.s2.c:527-533 | The terminated buffer reads as the 260-byte name with its trailing spaces removed. |
| FatDir.FirstFragment | limine/common/fs/fat32.s2.c:515-522 | Sequence number 1 fills slots 0-12 with the entry's characters and leaves the rest of the buffer alone. |
| FatDir.SingleEntryName | limine/common/fs/fat32.s2.c:503-537 | A single-entry long name (sequence byte 0x41) is compared as its 13 characters with trailing spaces removed. |
| FatDir.LabelOfName | limine/common/fs/fat32.s2.c:488-497 | The label is the 11 name bytes with trailing spaces turned into terminators. |
| FatDir.LabelFound | limine/common/fs/fat32.s2.c:478-500 | A label found is that of a volume-label entry, no entry before it in the scan has the volume-label attribute, and no end-of-directory entry comes at or before it. |
| FatDir.LookupFrom | limine/common/fs/fat32.s2.c:478-572 | A match is a whole 32-byte directory entry. |
| FatDir.DirScan | limine/common/fs/fat32.s2.c:476-579 | A match for a name is a whole 32-byte directory entry. |
| FatDir.LookupFound | limine/common/fs/fat32.s2.c:478-572 | A match is an entry that is not a long-name entry, and no end-of-directory entry comes at or before it. Either its 8.3 name matches, or it directly follows a long-name entry with sequence number 1, it is not deleted (0xE5), and the long name the scan gathered up to it (`BufferAt`) matches the name. A short-name match may be a deleted entry: neither the scan nor its 8.3 comparison rejects 0xE5. |
| FatDir.LookupFoundLong | limine/common/fs/fat32.s2.c:503-555 | The same holds when the scan resumes at a long-name entry. |
| FatDir.LookupStopsAtEnd | limine/common/fs/fat32.s2.c:479-482 | Entries after an end-of-directory marker are never looked at. |
| FatDir.LabelStopsAtEnd | limine/common/fs/fat32.s2.c:479-482 | The label scan also stops at the end-of-directory marker. |
| FatDir.LookupShort | limine/common/fs/fat32.s2.c:558-571 | A short-name entry matching the 8.3 form is returned when no earlier entry decides the scan. |
| FatDir.LookupPast | limine/common/fs/fat32.s2.c:558-571 | A non-LFN entry that is not the end marker and whose 8.3 name does not match leaves the outcome of the lookup unchanged. |
| FatDir.LookupHere | limine/common/fs/fat32.s2.c:567-570 | An entry that is not the end marker and whose 8.3 name matches is the one found. |
| FatDir.LookupEnd | limine/common/fs/fat32.s2.c:479-482 | The end-of-directory marker ends the lookup with nothing found. |
| FatDir.LongNameStep | limine/common/fs/fat32.s2.c:503-556 | At an LFN entry the lookup settles on the following entry when the completed long name matches, and otherwise goes on with the long-name buffer updated. |
| FatDir.ClearName | limine/common/fs/fat32.s2.c:506-509 | Clearing fills the whole name buffer with spaces. |
| FatDir.TerminateName | limine/common/fs/fat32.s2.c:527-533 | The trimming loop leaves the buffer equal to `Terminated` of its old contents. |
| FatDir.LfnEntry | limine/common/fs/fat32.s2.c:503-525 | Processing an LFN entry in place leaves the buffer equal to `LfnAfter` of its old contents. |
| FatDir.StoreFragments | limine/common/fs/fat32.s2.c:520-522 | The three `fat32_lfncpy` calls leave the buffer equal to `Fragments` of its old contents. |
| FatDir.LabelBuffer | limine/common/fs/fat32.s2.c:488-497 | The 12-byte label buffer built by the loop is `LabelOf` the entry. |
| FatDir.ScanDirectory | limine/common/fs/fat32.s2.c:476-579 | The directory loop returns exactly `DirScan` of the directory, the name and the case flag. |
| FatDir.ScanStep | limine/common/fs/fat32.s2.c:478-576 | One loop turn either ends the scan with what `DirScan` gives from that entry, or goes on to the next entry without changing the outcome. |
| FatDir.LabelTurn | limine/common/fs/fat32.s2.c:479-501 | The label search ends at the end marker or at the volume-label entry with its trimmed name, and otherwise goes on without changing its outcome. |
| FatDir.NameTurn | limine/common/fs/fat32.s2.c:479-571 | The name lookup ends with what `LookupFrom` gives at this entry, or goes on from the next entry, with the updated long-name buffer, to the same outcome. |
| FatDir.LfnTurn | limine/common/fs/fat32.s2.c:503-556 | The same at an LFN entry: the buffer gathers its pieces and a matching long name returns the valid short entry after it, or nothing. |
| FatOpen.FirstCluster | limine/common/fs/fat32.s2.c:433-435 | A first cluster fits in 32 bits; the high half counts only on FAT32. |
| FatOpen.RootEntry | limine/common/fs/fat32.s2.c:228-230 | The synthesised root entry is a 32-byte entry. |
| FatOpen.RootEntryCluster | limine/common/fs/fat32.s2.c:228-230 | Splitting the root cluster into low and high halves and reading it back gives the root cluster. |
| FatOpen.RootDir | limine/common/fs/fat32.s2.c:222-234 | The root directory handle is a 32-byte entry (FAT32) or the fixed root area (FAT12/16). |
| FatOpen.ChainOf | limine/common/fs/fat32.s2.c:303-348 | The chain of a cluster is returned exactly when one exists. |
| FatOpen.ChainOfIs | limine/common/fs/fat32.s2.c:303-348 | Any chain of the cluster is the one returned. |
| FatOpen.ChainStartsInRange | limine/common/fs/fat32.s2.c:309-310 | Clusters outside `[2, limit]` have no chain. |
| FatOpen.ChainFrom | limine/common/fs/fat32.s2.c:437-440 | The chain materialised for a directory is its chain, or None when it has none. |
| FatOpen.RootAlloc | limine/common/fs/fat32.s2.c:460-466 | The root area buffer holds all root entries. |
| FatOpen.DirectoryImageShape | limine/common/fs/fat32.s2.c:432-474 | A loaded directory is whole clusters and at most 256 MiB. |
| FatOpen.SubdirectoryImage | limine/common/fs/fat32.s2.c:432-474 | A loaded subdirectory is its chain's clusters, byte for byte. |
| FatOpen.RootDirectoryImage | limine/common/fs/fat32.s2.c:432-474 | The loaded fixed root is the root area read from the disk followed by zeros. |
| FatOpen.OpenInSpec | limine/common/fs/fat32.s2.c:425-580 | Looking up a name yields a 32-byte entry or nothing. |
| FatOpen.LoadChain | limine/common/fs/fat32.s2.c:437-458 | Loading a subdirectory gives its image, or None when the chain is missing, too large or unreadable. |
| FatOpen.ReadChainBytes | limine/common/fs/fat32.s2.c:443-456 | Reading a chain's clusters gives their bytes, or None when the size limit or a read fails. |
| FatOpen.LoadRoot | limine/common/fs/fat32.s2.c:459-474 | Loading the fixed root area gives its image. |
| FatOpen.OpenIn | limine/common/fs/fat32.s2.c:425-580 | `fat32_open_in` returns exactly `OpenInSpec`: the label entry, or the entry matching the name by long or short name. |
| FatOpen.ContextWithLabel | limine/common/fs/fat32.s2.c:218-243 | The context with its label still satisfies the geometry invariant and is on the volume. |
| FatOpen.InitContext | limine/common/fs/fat32.s2.c:102-244 | `fat32_init_context` returns exactly `ContextWithLabel`. |
| FatOpen.ContextLabel | limine/common/fs/fat32.s2.c:236-241 | A label found comes from a volume-label entry of the root directory. |
| FatOpen.GetLabel | limine/common/fs/fat32.s2.c:582-589 | No label for a volume the driver rejects; otherwise the context's label. |
| FatOpen.SeparatorFrom | limine/common/fs/fat32.s2.c:632-660 | Finds the first '/' or terminator within the component limit. |
| FatOpen.Component | limine/common/fs/fat32.s2.c:628-665 | A component is a slash-free slice of the path shorter than 261 bytes. A '/' after it means a directory is expected and the walk resumes after the slash; a terminator means the file. |
| FatOpen.ComponentNulFree | limine/common/fs/fat32.s2.c:639-648 | A component holds no terminator byte. |
| FatOpen.NextComponent | limine/common/fs/fat32.s2.c:628-665 | The component loop returns exactly `Component`. |
| FatOpen.Resolve | limine/common/fs/fat32.s2.c:628-707 | Each step of the path walk yields a 32-byte entry or nothing. |
| FatOpen.FileFromEntry | limine/common/fs/fat32.s2.c:675-693 | The file handle built from an entry is `FileOf` the entry: its size, first cluster and chain, or None for a non-empty file without a chain. |
| FatOpen.Open | limine/common/fs/fat32.s2.c:594-707 | `fat32_open` returns exactly `OpenSpec`. |
| FatOpen.OpenedFile | limine/common/fs/fat32.s2.c:678-693 | An opened file has a valid context on the volume. Its chain is the chain of its first cluster, or it is empty with size 0. |
| FatOpen.FatRead | limine/common/fs/fat32.s2.c:709-714 | The read succeeds exactly when the range is readable through the chain, and then delivers the file's bytes. |
| IsoRecords.Record | limine/common/fs/iso9660.s2.c:40-52 | A whole record is `length` bytes starting at its position, with room for the fixed header. |
| IsoRecords.ExtentLba | limine/common/fs/iso9660.s2.c:43 | The extent LBA is the 32-bit little-endian half. |
| IsoRecords.ExtentBytes | limine/common/fs/iso9660.s2.c:44 | The extent size is the 32-bit little-endian half. |
| IsoRecords.NameCut | limine/common/fs/iso9660.s2.c:244-251 | The name ends at the first ';' or at a '.' just before ';', and at nothing earlier. |
| IsoRecords.IdentifierLength | limine/common/fs/iso9660.s2.c:228-243 | The identifier length is the declared one, clamped to what the record holds. |
| IsoRecords.IsoName | limine/common/fs/iso9660.s2.c:228-253 | The fallback name is a prefix of the record's identifier. |
| IsoRecords.SystemUse | limine/common/fs/iso9660.s2.c:176-190 | The system-use area is a tail of the record that starts past the identifier. |
| IsoRecords.RockRidgeName | limine/common/fs/iso9660.s2.c:192-214 | A Rock Ridge name is non-empty, fits in the area together with its 5-byte entry header, and is at most 250 bytes. |
| IsoRecords.LoadNameSpec | limine/common/fs/iso9660.s2.c:175-254 | A Rock Ridge name is non-empty and fits the 256-byte buffer. Otherwise the name is the cut ISO identifier. |
| IsoRecords.LoadName | limine/common/fs/iso9660.s2.c:175-254 | `load_name` returns exactly `LoadNameSpec`, with true only for a Rock Ridge name. |
| IsoRecords.ScanSystemUse | limine/common/fs/iso9660.s2.c:192-214 | The system-use loop returns exactly `RockRidgeName`. |
| IsoRecords.IsoIdentifier | limine/common/fs/iso9660.s2.c:244-253 | The copy loop returns exactly `IsoName`. |
| IsoRecords.VersionDropped | limine/common/fs/iso9660.s2.c:245-251 | "NAME;1" reads as "NAME". |
| IsoRecords.EmptyExtensionDropped | limine/common/fs/iso9660.s2.c:248-249 | "NAME.;1" reads as "NAME". |
| IsoRecords.NmEntryRead | limine/common/fs/iso9660.s2.c:199-205 | An "NM" entry at the front of the area yields its name. |
| IsoRecords.OtherEntrySkipped | limine/common/fs/iso9660.s2.c:208-213 | A well-formed entry other than "NM" is skipped. |
| IsoRecords.AlignUp | limine/common/fs/iso9660.s2.c:264 | Rounds up to the next multiple of 2048 that is at least `x`. |
| IsoRecords.NextEntryAsWritten | limine/common/fs/iso9660.s2.c:258-294 | The next record lies strictly after the current one and inside the buffer. A padding skip lands on a sector boundary. |
| IsoRecords.NextEntryOverrun | limine/common/fs/iso9660.s2.c:273-293 | Shows a buffer where the returned record does not fit its fixed header in the buffer. |
| IsoRecords.NextEntry | limine/common/fs/iso9660.s2.c:258-294 | The next record lies after the current one and fits wholly in the buffer. |
| IsoRecords.NextEntryAgrees | limine/common/fs/iso9660.s2.c:258-294 | The checked version agrees with the source whenever the returned record fits. |
| IsoFind.PaddingSkip | limine/common/fs/iso9660.s2.c:300-315 | A zero-length record skips forward, by at most one sector, to a point a whole number of sectors from the end. It fails exactly when at most one sector remains. |
| IsoFind.PaddingToNextSector | limine/common/fs/iso9660.s2.c:300-315 | In a sector-multiple buffer the skip lands on the next sector boundary. |
| IsoFind.FindFrom | limine/common/fs/iso9660.s2.c:296-345 | A record found lies at or after the start and is whole. |
| IsoFind.Scan | limine/common/fs/iso9660.s2.c:296-345 | For any record test, a record found lies at or after the start and is whole. |
| IsoFind.ScanFound | limine/common/fs/iso9660.s2.c:327-338 | A record found passes the test. |
| IsoFind.FindFound | limine/common/fs/iso9660.s2.c:327-338 | A record found is whole and its loaded name matches the query. |
| IsoFind.FindRejects | limine/common/fs/iso9660.s2.c:317-325 | A record longer than the rest of the buffer, or shorter than the header, ends the walk with nothing. |
| IsoFind.FindStable | limine/common/fs/iso9660.s2.c:296-345 | Walking again from the record found finds the same record. |
| IsoFind.Find | limine/common/fs/iso9660.s2.c:296-345 | The position-and-size loop returns exactly `FindFrom` from the start. |
| IsoFind.FindStep | limine/common/fs/iso9660.s2.c:296-345 | One loop turn either ends the search with `FindFrom` from the current position, or moves to a later position with a smaller remaining size and the same outcome. |
| IsoFind.PaddingTurn | limine/common/fs/iso9660.s2.c:300-315 | The same at a zero-length record: the search ends with nothing when at most one sector remains, and skips the padding otherwise. |
| IsoFind.RecordTurn | limine/common/fs/iso9660.s2.c:317-342 | The same at a record: a malformed length ends the search with nothing. |
| IsoFind.WholeRecordTurn | limine/common/fs/iso9660.s2.c:327-342 | The same at a whole record: a matching record is the result, and the search goes on past any other. |
| IsoFind.FoundHere | limine/common/fs/iso9660.s2.c:327-338 | A whole record carrying the name sought is the one found from its own position. |
| IsoFind.SkipRecord | limine/common/fs/iso9660.s2.c:340-341 | Passing a whole record carrying another name does not change the outcome. |
| IsoFind.PaddingStep | limine/common/fs/iso9660.s2.c:300-315 | A padding skip does not change the outcome of the walk. |
| IsoFind.PaddingEnd | limine/common/fs/iso9660.s2.c:300-302 | Padding with at most one sector left ends the walk with nothing. |
| IsoFind.RecordStep | limine/common/fs/iso9660.s2.c:340-341 | Passing a whole record that fails the test does not change the outcome. |
| IsoFind.FindHit | limine/common/fs/iso9660.s2.c:327-338 | A whole record that passes the test is the one found. |
| IsoFind.SkipPadding | limine/common/fs/iso9660.s2.c:301-314 | The size arithmetic lands where `PaddingSkip` says and keeps position plus size equal to the buffer length. |
| IsoFind.RecordMatches | limine/common/fs/iso9660.s2.c:327-338 | Compares case-sensitively only for Rock Ridge names with case-sensitive opening, and case-folded otherwise. |
| IsoFind.CheckRecord | limine/common/fs/iso9660.s2.c:327-341 | The record step reports whether the record at `p` matches the query and moves past it by its length. |
| IsoVolume.Descriptor | limine/common/fs/iso9660.s2.c:118-121 | A descriptor read is one 2048-byte sector. |
| IsoVolume.PvdFrom | limine/common/fs/iso9660.s2.c:113-135 | A result is a primary volume descriptor. |
| IsoVolume.PvdFound | limine/common/fs/iso9660.s2.c:113-135 | The descriptor found is the first primary one, at an LBA below 16 + 256, with no terminator before it. |
| IsoVolume.FindPvd | limine/common/fs/iso9660.s2.c:113-135 | The scan loop returns exactly `PvdFrom` from LBA 16. |
| IsoVolume.RootImage | limine/common/fs/iso9660.s2.c:137-155 | A cached root directory is non-empty and at most 64 MiB. |
| IsoVolume.CacheRoot | limine/common/fs/iso9660.s2.c:137-155 | `iso9660_cache_root` returns exactly `RootImage`. |
| IsoVolume.Lookup | limine/common/fs/iso9660.s2.c:158-163 | Returns a context of the list for that volume, or None when the list has none. |
| IsoVolume.RegisteredCoherent | limine/common/fs/iso9660.s2.c:157-173 | Registering keeps every cached root correct and grows the list by at most one. |
| IsoVolume.ConsCoherent | limine/common/fs/iso9660.s2.c:166-171 | Prepending a correct context for a new volume keeps the list coherent. |
| IsoVolume.CachedRoot | limine/common/fs/iso9660.s2.c:157-173 | A cached context holds the volume's root directory. |
| IsoVolume.Registry.constructor | limine/common/fs/iso9660.s2.c:105 | The context list starts empty. |
| IsoVolume.Registry.GetContext | limine/common/fs/iso9660.s2.c:157-173 | A volume already in the list gets its existing context. A new one gets a fresh context over its root directory, prepended to the list. |
| IsoFile.ExtentRecords | limine/common/fs/iso9660.s2.c:424-440 | The counting pass visits 1 to 65536 whole records, starting with the file's own. |
| IsoFile.RecordsLinked | limine/common/fs/iso9660.s2.c:428-440 | Each visited record is followed by the next entry after the previous one. |
| IsoFile.ExtentsAt | limine/common/fs/iso9660.s2.c:447-458 | Each extent is the LBA and size of the matching record. |
| IsoFile.TotalAppend | limine/common/fs/iso9660.s2.c:425-434 | The total size grows by the size of each extent added. |
| IsoFile.ExtentsAppend | limine/common/fs/iso9660.s2.c:433-434 | Adding a record adds its extent and its size to the total. |
| IsoFile.RecordsStep | limine/common/fs/iso9660.s2.c:428-433 | A multi-extent record is followed by the records from its next entry. |
| IsoFile.CollectExtents | limine/common/fs/iso9660.s2.c:420-458 | The two passes yield the extents of the counted records and their total size. |
| IsoFile.CountExtents | limine/common/fs/iso9660.s2.c:424-440 | The first pass counts the records and sums their sizes. |
| IsoFile.CountStep | limine/common/fs/iso9660.s2.c:428-439 | One counting turn moves to the next record and adds its size. |
| IsoFile.RecordsShift | limine/common/fs/iso9660.s2.c:428-439 | Counting a record moves it from the records still ahead to those behind, without changing the whole list. |
| IsoFile.FillExtents | limine/common/fs/iso9660.s2.c:447-458 | The second pass fills the extent array with exactly those extents. |
| IsoFile.ComponentEnd | limine/common/fs/iso9660.s2.c:397-404 | A component ends at the first '/' or terminator within 254 bytes. |
| IsoFile.ComponentAt | limine/common/fs/iso9660.s2.c:397-404 | The copy loop returns exactly `ComponentEnd`. |
| IsoFile.FileHandle | limine/common/fs/iso9660.s2.c:420-445 | A file handle has 1 to 65536 extents whose sizes sum to its size. |
| IsoFile.Found | limine/common/fs/iso9660.s2.c:416-490 | At the path's end the record becomes the file. A directory of size 0 or above 64 MiB is refused, and one that is entered has its extent's size. |
| IsoFile.StepOf | limine/common/fs/iso9660.s2.c:377-491 | One loop turn either finishes with a well-shaped handle or descends and advances along the path. |
| IsoFile.Walk | limine/common/fs/iso9660.s2.c:377-503 | The whole walk yields a well-shaped handle or nothing. |
| IsoFile.OpenSpec | limine/common/fs/iso9660.s2.c:350-518 | A handle is on the volume and well shaped. A volume without "CD001" at sector 16, offset 1, opens nothing. |
| IsoFile.OnlySlashes | limine/common/fs/iso9660.s2.c:365-392 | A path of slashes only, including the empty path, opens nothing. |
| IsoFile.FoundMatches | limine/common/fs/iso9660.s2.c:397-419 | A file returned is the record whose name matches the last component. |
| IsoFile.SkipSlashLoop | limine/common/fs/iso9660.s2.c:379-381 | The loop skips exactly the leading slashes. |
| IsoFile.Open | limine/common/fs/iso9660.s2.c:350-518 | `iso9660_open` returns exactly `OpenSpec`. The context list changes only when the volume carries "CD001". |
| IsoFile.Walkthrough | limine/common/fs/iso9660.s2.c:368-503 | The walk loop returns exactly `Walk` from the root. |
| IsoFile.SkipSlashesAgain | limine/common/fs/iso9660.s2.c:379-381 | Skipping slashes twice is skipping them once. |
| IsoFile.WalkStep | limine/common/fs/iso9660.s2.c:378-491 | One turn of the walk loop returns exactly `StepOf`. |
| IsoFile.FoundStep | limine/common/fs/iso9660.s2.c:416-490 | The found-record branch returns exactly `Found`. |
| IsoFile.ExtentIndex | limine/common/fs/iso9660.s2.c:525-529 | A file offset falls into the extent whose start and end enclose it. |
| IsoFile.IndexOf | limine/common/fs/iso9660.s2.c:525-529 | That extent is unique. |
| IsoFile.ReadLength | limine/common/fs/iso9660.s2.c:525-547 | A read delivers `count` bytes unless it reaches the file's end first. |
| IsoFile.ChunkBytes | limine/common/fs/iso9660.s2.c:531-537 | A byte read at `LBA * 2048 + offset` of an extent is the file's byte at that offset. |
| IsoFile.IsoRead | limine/common/fs/iso9660.s2.c:520-548 | The read succeeds exactly when every file byte in range is readable. It then delivers them in order across extents and leaves the rest of the buffer alone. |
| IsoFile.ReadChunk | limine/common/fs/iso9660.s2.c:529-543 | One extent's read takes `min(count, bytes left)`. It stops at the extent's end, or fails only when a byte in range is unreadable. |
| IsoFile.ChunkFails | limine/common/fs/iso9660.s2.c:531-539 | A failed extent read misses some byte of the file in its range. |
| IsoFile.ChunkHolds | limine/common/fs/iso9660.s2.c:531-537 | A successful extent read delivers the file's bytes at those offsets. |
| IsoFile.ChunkLanded | limine/common/fs/iso9660.s2.c:531-537 | The bytes of a successful extent read, copied into the buffer, are the file bytes at those offsets. |
| Misc.BcdToInt | limine/common/lib/misc.s2.c:11-13 | The result never exceeds 165, so the `uint8_t` return never wraps. For a well-formed BCD byte, its tens digit is the high nibble and its units digit the low nibble. |
| Misc.IntToBcd | limine/common/lib/misc.s2.c:14-16 | For `v <= 99` the high nibble is the tens digit and the low nibble the units digit. |
| Misc.BcdRoundTrip | limine/common/lib/misc.s2.c:11-16 | `bcd_to_int(int_to_bcd(v)) == v` for every `v` in 0-99, and the encoding is valid BCD. |
| Misc.IntRoundTrip | limine/common/lib/misc.s2.c:11-16 | Every valid BCD byte decodes to at most 99 and re-encodes to itself. |
| Misc.DigitToInt | limine/common/lib/misc.s2.c:18-30 | '0'-'9' map to 0-9, and 'a'-'f' and 'A'-'F' to 10-15. The result is -1 exactly for a non-hex byte. |
| Misc.HexDigitRoundTrip | limine/common/lib/misc.s2.c:18-30 | Every value below 16 has exactly its lower- and upper-case digits as preimages. |
| Misc.DigitEnd | limine/common/lib/misc.s2.c:34-40 | The digit run ends at the first byte that is not a hex digit, or at the end of the string. |
| Misc.StrToUi | limine/common/lib/misc.s2.c:32-54 | If every prefix fits in 64 bits, the result is the value of the digit run and `end` is past it. Otherwise it is UINT64_MAX with `end` at the first digit whose prefix overflows. The base is converted to 64 bits. |
| Misc.ValueStep | limine/common/lib/misc.s2.c:41-51 | Each digit contributes `n * base + d`. |
| Misc.FitsStep | limine/common/lib/misc.s2.c:41-51 | The loop can go on exactly while the value fits, and an overflowing prefix spoils every longer one. |
| Misc.NotDigitIsEnd | limine/common/lib/misc.s2.c:35-39 | Within the digit run, the first non-digit is at the run's end. |
| Misc.LargeDigitAccepted | limine/common/lib/misc.s2.c:35-51 | A hex digit is taken whatever the base: "1f" in base 10 is 25. |
| Misc.LastSlash | limine/common/lib/misc.s2.c:94 | Finds the last '/' at or before `k`. |
| Misc.Up | limine/common/lib/misc.s2.c:92-100 | ".." keeps a prefix of the output and never removes the leading '/'. |
| Misc.Term | limine/common/lib/misc.s2.c:116-120 | Termination drops one trailing '/' unless the output is "/". |
| Misc.ComponentEnd | limine/common/lib/misc.s2.c:121-126 | A component ends at the next '/' or the terminator. |
| Misc.AbsolutePathShape | limine/common/lib/misc.s2.c:60-80 | Size 0 fails, and an empty path yields the working directory when it fits. Any result leaves room for its terminator and, for a non-empty path, starts with '/'. |
| Misc.ResolveFits | limine/common/lib/misc.s2.c:109-126 | The normalised path never reaches `size - 1` and keeps its leading '/'. |
| Misc.ComponentFits | limine/common/lib/misc.s2.c:109-126 | The same bound and leading '/' hold from a point where a component is appended. |
| Misc.TerminatorOverrun | limine/common/lib/misc.s2.c:116-120 | With size 1 and path "/", the code as written succeeds with "/" and its terminator lands at index 1, past the buffer. The corrected version fails. |
| Misc.BackScanAsWritten | limine/common/lib/misc.s2.c:94 | The back-scan stops at a '/' at or before where it starts. |
| Misc.StaleSlashKeepsComponent | limine/common/lib/misc.s2.c:92-96 | A stale '/' just past the output stops the back-scan at once, so "/a/.." keeps "/a" although ".." should give "/". |
| Misc.UpUndoesAppend | limine/common/lib/misc.s2.c:92-113 | ".." after appending a component restores the output, and ".." at the root stays at "/". |
| Misc.NormalisesParent | limine/common/lib/misc.s2.c:82-128 | "/a/b/../c" normalises to "/a/c". |
| Misc.NormalisesRoot | limine/common/lib/misc.s2.c:82-128 | "/.." normalises to "/". |
| Misc.ResolveCases | limine/common/lib/misc.s2.c:82-128 | Each branch of the normalisation loop: skip '/', drop "./", back up on "../", or append a component when it fits. |
| Misc.GetAbsolutePath | limine/common/lib/misc.s2.c:56-129 | The buffer gets the normalised path and a terminator inside `size` bytes, or the call fails. The result matches `AbsolutePath`, and an empty path copies the working directory. |
| Misc.PathStep | limine/common/lib/misc.s2.c:82-128 | One turn of the loop either ends with the buffer holding what `Resolve` gives, or goes further into the path without changing the outcome. |
| Misc.AppendComponent | limine/common/lib/misc.s2.c:109-126 | Appends the separator and the component, or fails when a byte would land at `size - 1`. |
| Misc.BackUp | limine/common/lib/misc.s2.c:94-95 | Backs up to `Up` of the output written so far. |
| Misc.Terminate | limine/common/lib/misc.s2.c:116-120 | Writes the terminator after `Term` of the output. |
| Keyboard.KeyBuffer.constructor | kernel/src/keyboard.rs:11-18 | An empty ring with both positions at 0. |
| Keyboard.KeyBuffer.Push | kernel/src/keyboard.rs:20-26 | Below 256 keys, the byte goes into `write_pos`, which advances mod 256, the count grows by one and the queue gains the key at its end. A full ring is unchanged. The ring invariant is kept. |
| Keyboard.KeyBuffer.Pop | kernel/src/keyboard.rs:28-36 | An empty ring gives None and is unchanged. Otherwise the oldest key is returned, `read_pos` advances mod 256 and the queue loses its head (FIFO). |
| Keyboard.RingSlotsDiffer | kernel/src/keyboard.rs:20-36 | Queued slots never collide with the next write slot. |
| Keyboard.KeyOf | kernel/src/keyboard.rs:87 | The key code is below 128. |
| Keyboard.Emitted | kernel/src/keyboard.rs:85-109 | A byte is pushed only for a non-release, non-shift scancode. It is the table value for the shift state and is never 0. |
| Keyboard.TablesAt | kernel/src/keyboard.rs:45-83 | In both tables every value is 0 (no character), printable ASCII, backspace, tab, newline or escape, and a lower-case letter's shifted value is its capital. |
| Keyboard.TablesChecked | kernel/src/keyboard.rs:45-83 | The property holds for every key of the tables. |
| Keyboard.ShiftCapitalises | kernel/src/keyboard.rs:45-83 | Shift turns each lower-case letter into its capital. |
| Keyboard.EmittedBytes | kernel/src/keyboard.rs:101-108 | Every pushed byte is 0x20-0x7E or one of 8, 9, 10, 27. |
| Keyboard.KeyboardState.constructor | kernel/src/keyboard.rs:39-41 | Shift not held and an empty key buffer. |
| Keyboard.KeyboardState.HandleScancode | kernel/src/keyboard.rs:85-110 | Shift is set to "not release" for 0x2A and 0x36 and kept otherwise. The queue gains exactly the emitted byte when there is room, and is unchanged otherwise. |
| Shell.LineBuffer.constructor | kernel/src/shell.rs:19-24 | An empty line. |
| Shell.LineBuffer.Push | kernel/src/shell.rs:26-34 | Returns true exactly when fewer than 256 bytes are held; the byte is then appended, otherwise nothing changes. |
| Shell.LineBuffer.Pop | kernel/src/shell.rs:36-43 | Returns false on an empty line; otherwise the last byte is dropped. |
| Shell.LineBuffer.Clear | kernel/src/shell.rs:45-47 | The line becomes empty. |
| Shell.LineBuffer.AsStr | kernel/src/shell.rs:49-52 | The text is the bytes pushed and not popped, at most 256 of them. |
| Shell.Fitted | kernel/src/shell.rs:76-84 | The kept text is the prefix of the input that fits in 256 bytes: all of it when it fits, exactly 256 bytes otherwise. |
| Shell.FittedStep | kernel/src/shell.rs:77-82 | A byte is kept only while there is room. |
| Shell.FittedAppend | kernel/src/shell.rs:76-84 | Writing in two pieces keeps the same text as writing once. |
| Shell.FmtBuf.constructor | kernel/src/shell.rs:63-68 | An empty buffer. |
| Shell.FmtBuf.WriteStr | kernel/src/shell.rs:76-84 | Always returns Ok; the buffer holds `Fitted(old + s)`, so excess bytes are dropped. |
| Shell.FmtBuf.AsStr | kernel/src/shell.rs:70-72 | The text written so far, at most 256 bytes. |
| Shell.LeadingWhitespace | kernel/src/shell.rs:132 | Counts the leading whitespace: everything before it is whitespace and the byte after it is not. |
| Shell.TrimStart | kernel/src/shell.rs:132 | The trimmed text is empty or starts with non-whitespace. |
| Shell.FindByte | kernel/src/shell.rs:137 | Returns the index of the first occurrence, or None exactly when the byte is absent. |
| Shell.Parse | kernel/src/shell.rs:131-154 | A line is blank exactly when it is all whitespace, and an unknown command is none of help, clear, echo, info, reboot. |
| Shell.SplitParts | kernel/src/shell.rs:131-140 | The line is leading whitespace + command + gap + arguments. The command is non-empty, space-free and starts with non-whitespace. The arguments are trimmed, and they are empty when there is no space. |
| Shell.ArgumentGap | kernel/src/shell.rs:137-138 | After the first space the gap is whitespace starting with that space. |
| Shell.DispatchKeepsLine | kernel/src/shell.rs:245-271 | The line stays printable and at most 256 bytes. Only printable bytes are echoed and appended, byte 8 erases the last byte, a newline and nothing else executes, and ignored keys change nothing. |
| Shell.HandleKey | kernel/src/shell.rs:245-271 | The line buffer and the action follow `Dispatch`. |
| RamDisk.BlockOf | kernel/src/ramdisk.rs:43-46 | Block `id` is the 512 bytes from `id * 512`. |
| RamDisk.WithBlock | kernel/src/ramdisk.rs:69-73 | Replacing a block changes exactly its 512 bytes. |
| RamDisk.BlockInside | kernel/src/ramdisk.rs:43-46 | Any block below the count lies inside the storage. |
| RamDisk.ReadAfterWrite | kernel/src/ramdisk.rs:63-73 | A read after a write of the same block returns what was written. |
| RamDisk.OtherBlocksKept | kernel/src/ramdisk.rs:69-73 | A write leaves every other block unchanged. |
| RamDisk.WriteTwice | kernel/src/ramdisk.rs:69-73 | The later of two writes to one block wins. |
| RamDisk.BlockReplaced | kernel/src/ramdisk.rs:69-73 | Storage that holds `data` in block `id` and is otherwise unchanged is `WithBlock` of the old storage. |
| RamDisk.RamDisk.constructor | kernel/src/ramdisk.rs:23-35 | The block count is the storage length over 512. |
| RamDisk.RamDisk.GetBlock | kernel/src/ramdisk.rs:38-47 | OutOfBounds exactly when `id >= block_count`; otherwise block `id`. |
| RamDisk.RamDisk.GetBlockMut | kernel/src/ramdisk.rs:50-59 | OutOfBounds exactly when `id >= block_count`; otherwise block `id`'s offset, inside the storage. |
| RamDisk.RamDisk.ReadBlock | kernel/src/ramdisk.rs:63-67 | An out-of-range id fails and leaves the buffer alone; otherwise the buffer receives the block. |
| RamDisk.RamDisk.WriteBlock | kernel/src/ramdisk.rs:69-73 | An out-of-range id fails and leaves the storage alone; otherwise exactly that block is replaced. |
| RamDisk.RamDisk.BlockCount | kernel/src/ramdisk.rs:75-77 | The block count times 512 is the storage length. |
| Framebuffer.GlyphOf | kernel/src/framebuffer.rs:91 | The glyph index is the byte masked to 7 bits. |
| Framebuffer.Render | kernel/src/framebuffer.rs:90-104 | Drawing a glyph moves no cursor and keeps the grid's shape. |
| Framebuffer.NextLine | kernel/src/framebuffer.rs:123-130 | A new line always returns to column 0 and keeps the grid's shape. |
| Framebuffer.Put | kernel/src/framebuffer.rs:132-143 | Writing a byte keeps the grid's shape. |
| Framebuffer.PutAll | kernel/src/framebuffer.rs:183-190 | Writing a string keeps the grid's shape. |
| Framebuffer.Erase | kernel/src/framebuffer.rs:145-155 | A backspace keeps the grid's shape. |
| Framebuffer.PutInRow | kernel/src/framebuffer.rs:135-141 | With room in the row, the byte's glyph lands at the cursor and the column advances by one. |
| Framebuffer.PutWraps | kernel/src/framebuffer.rs:136-140 | Past the last column, the byte wraps to column 0 of the next row, or the scrolled last row, and the column becomes 1. |
| Framebuffer.NewLineScrolls | kernel/src/framebuffer.rs:123-130 | On the last row a new line scrolls the rows up, blanks the last one and keeps the row. |
| Framebuffer.NewLineMovesDown | kernel/src/framebuffer.rs:123-130 | Above the last row a new line moves down one row without scrolling. |
| Framebuffer.EraseUndoesPut | kernel/src/framebuffer.rs:132-155 | A backspace after a byte written in the row returns the cursor and blanks that cell. |
| Framebuffer.EraseAtLineStart | kernel/src/framebuffer.rs:149-154 | At column 0 a backspace moves to the last column of the row above; at (0, 0) it does nothing. |
| Framebuffer.PutAllInRow | kernel/src/framebuffer.rs:183-190 | A newline-free string that fits the row lands glyph by glyph, and the other cells and rows are unchanged. |
| Framebuffer.ChannelsRoundTrip | kernel/src/framebuffer.rs:73-77 | With non-overlapping channel shifts, each channel of the packed pixel is the colour's component. |
| Framebuffer.FramebufferWriter.ColorToPixel | kernel/src/framebuffer.rs:73-77 | When the writer's channel shifts do not overlap, the red, green and blue bytes of the packed pixel are the colour's components. |
| Framebuffer.PixelsDisjoint | kernel/src/framebuffer.rs:79-88 | On a framebuffer of at least 4 bytes per pixel whose pitch covers a row, two different on-screen pixels get non-overlapping 32-bit stores. |
| Framebuffer.RowsApart | kernel/src/framebuffer.rs:83 | A pixel's store ends before the next row starts. |
| Framebuffer.FramebufferWriter.constructor | kernel/src/framebuffer.rs:39-71 | `max_cols = width / 8`, `max_rows = height / 16`, the colours are light grey on black, and the screen is blank with the cursor at (0, 0). |
| Framebuffer.FramebufferWriter.PixelOffset | kernel/src/framebuffer.rs:79-88 | Nothing is stored exactly when x or y is off screen. A stored pixel lies at or past both its row's offset `y * pitch` and its column's offset `x * bpp`. |
| Framebuffer.FramebufferWriter.ClearScreen | kernel/src/framebuffer.rs:173-180 | The grid is blank and the cursor is at (0, 0). |
| Framebuffer.FramebufferWriter.ScrollUp | kernel/src/framebuffer.rs:106-121 | Rows move up by one, the last row is blank and the cursor stays. |
| Framebuffer.FramebufferWriter.RenderChar | kernel/src/framebuffer.rs:90-104 | The cell at the cursor takes the glyph. |
| Framebuffer.FramebufferWriter.NewLine | kernel/src/framebuffer.rs:123-130 | The state follows `NextLine`. |
| Framebuffer.FramebufferWriter.WriteByte | kernel/src/framebuffer.rs:132-143 | The state follows `Put`. |
| Framebuffer.FramebufferWriter.Backspace | kernel/src/framebuffer.rs:145-155 | The state follows `Erase`. |
| Framebuffer.FramebufferWriter.WriteStr | kernel/src/framebuffer.rs:183-190 | The state follows `PutAll`, byte by byte. |

## Left out

- Device I/O: `disk_read_sectors`, the BIOS/UEFI handles and the PXE panic are not modelled. The device is a byte image with a possibly failing sector read.
- `ext_mem_alloc` and `pmm_free` are not modelled. Allocation always succeeds and returns zeroed memory, and frees have no effect.
- Panics in `iso9660_find_PVD`, `iso9660_cache_root`, `load_name`, the over-long component check of `iso9660_open`, `iso9660_read` and `fat32_read` become failure results (None or false).
- `fs_get_guid` and `fs_get_label` live outside this model. They are the `Probes` parameter of the partition functions, so file-system GUIDs and labels are whatever the probes return.
- `strcasecmp` and `toupper` are modelled as ASCII case folding.
- The `case_insensitive_fopen` global is the `ci` parameter.
- `fat32_close` and `iso9660_close` are not modelled: they only free memory.
- `volume_get_by_bios_drive` (BIOS builds only) is not modelled.
- BlockCache.CachedVolume.VolumeRead: the data it delivers is promised only on a device without transient failures. When the retry loop shrinks a transfer, `cache_block` still marks the whole block ready. The bytes past the shrunk transfer are then stale, and the model records only that they were not filled.
- Volumes.Read is None for a request that runs past the device's end, but `volume_read` on a volume of unknown size succeeds there when its last block starts on the device: the retry loop shrinks the transfer to the sectors that exist and the copy takes stale cache bytes for the rest. `VolumeRead` therefore promises only the bytes that lie on the device, and the file-system functions built on `Read` treat such reads as failures.
- BlockCache.CachedVolume.VolumeRead, CopyRange, ReadChunk and CacheFor promise success only for a device image shorter than 2^64 bytes, the range the 64-bit sector arithmetic of `cache_block` can address.
- Misc.GetAbsolutePath requires `Rooted`: a relative path needs a working directory that starts with '/'. The source also handles a relative working directory when the path has no "..", for example "boot" and "a" give "boot/a". The model does not cover that case.
- Framebuffer.PixelsDisjoint requires at least 4 bytes per pixel. On a 24-bit framebuffer the source's 32-bit stores of neighbouring pixels overlap by one byte, and the later store wins.
- Framebuffer pixels are not modelled. The `FONT_8X16` bitmap (`font.rs`, not part of this model), `render_char`'s pixel loops, the volatile stores, `ptr::copy` in `scroll_up` and the margin pixels beyond the character grid are all abstracted: the screen is a grid of cells.
- Framebuffer.FramebufferWriter.ScrollUp, NewLine, WriteByte, WriteStr require `max_rows > 0`, because `scroll_up` underflows `total_rows - 1` on a screen shorter than one glyph.
- Framebuffer.FramebufferWriter.Backspace requires `!EraseUnderflows`, because at column 0 of a row above 0 with `max_cols == 0` the source underflows `max_cols - 1`.
- Framebuffer.FramebufferWriter.ColorToPixel requires every shift below 32, because Rust's `<<` overflows beyond that.
- RamDisk.RamDisk.constructor requires a storage length that is a multiple of 512, where the source panics.
- Shell.TrimStart: `trim_start` is modelled for ASCII whitespace (space and 0x09-0x0D). Other Unicode whitespace cannot occur, because the line holds printable ASCII only.
- Shell printing is not modelled: `print_str`, `echo_byte`, `print_prompt`, the text of the `cmd_*` commands and the reboot `asm!`. `Dispatch` returns the action instead.
- Spin mutexes and `without_interrupts` exist only against interrupt concurrency, and the model runs sequentially.
- 32-bit and 64-bit widths are modelled where the source checks them: every overflow guard of `part.s2.c`, `fat32.s2.c` and `strtoui`. The model has no wrap-around elsewhere, because every value is bounded by its decoded width.

## Findings

| source | as written | input that shows it | evidently intended | confidence | as-written member | corrected member |
|---|---|---|---|---|---|---|
| limine/common/lib/misc.s2.c:58-120 | An absolute path writes '/' without checking `end_ptr`, then the terminator at `path_ptr`. | `size == 1`, `path == "/"`: the terminator is written at index 1, one past the buffer. | Fail when the output and its terminator do not fit. | not executed; high | Misc.TerminatorOverrun | Misc.AbsolutePathShape |
| limine/common/lib/misc.s2.c:92-100 | The ".." back-scan starts at `*path_ptr`, a byte not yet written. | "/a/.." into a buffer whose byte 2 is a stale '/': the scan stops there and the result is "/a". | Scan from the last written byte, so ".." removes the last component. | not executed; medium | Misc.StaleSlashKeepsComponent | Misc.UpUndoesAppend |
| limine/common/fs/iso9660.s2.c:273-293 | `iso9660_next_entry` checks that the next record starts inside the buffer and is at least 33 bytes long, but not that it ends inside it. | A 40-byte directory whose record at 0 is 33 bytes long and whose byte 33 says 33: the record at 33 is returned, and its extent fields are read past the buffer's end. | Also require `next + length <= buffer_end`. | not executed; medium | IsoRecords.NextEntryOverrun | IsoRecords.NextEntry |
