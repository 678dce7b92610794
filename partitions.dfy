/** The partition resolver: GPT, the classic MBR with its chain of extended
    boot records, and `part_get`, which tries them in that order
    (limine/common/lib/part.s2.c:108-589). Every table read goes through
    `Volumes.Read`, the byte-range read of the volume being partitioned. */
module Partitions {
  import opened Common
  import opened Volumes

  const INT_MAX: int := 0x7FFF_FFFF

  /** What `part_get` and its helpers return: a filled sub-volume (status 0)
      or one of the three failure statuses. */
  datatype PartResult = Found(vol: Volume) | NoPartition | InvalidTable | EndOfTable

  /** The filesystem probes run on every new sub-volume (`fs_get_guid`,
      `fs_get_label`); their code is not part of this model. */
  datatype Probes = Probes(guid: Volume -> Option<Guid>, fsLabel: Volume -> Option<seq<byte>>)

  /** A sub-volume of `base`'s drive: geometry from the table, identity from
      the probes run on the bare descriptor, then the partition GUID. */
  /** Two descriptors of the same drive: same device, geometry and coordinates. */
  predicate SameDrive(w: Volume, v: Volume)
  {
    w.dev == v.dev && w.sectorSize == v.sectorSize && w.fastestXferSize == v.fastestXferSize &&
    w.index == v.index && w.isOptical == v.isOptical
  }

  function Carve(base: Volume, partition: int, firstSect: nat, sectCount: nat,
                 backing: Option<Volume>, probes: Probes, partGuid: Option<Guid>): (r: Volume)
    ensures SameDrive(r, base)
    ensures r.partition == partition && r.firstSect == firstSect && r.sectCount == Some(sectCount)
    ensures r.backing == backing && r.partGuid == partGuid
    ensures WellFormed(base) ==> WellFormed(r)
  {
    var bare := Volume(base.dev, base.sectorSize, firstSect, Some(sectCount), base.fastestXferSize,
                       base.index, base.isOptical, partition, None, None, None, backing);
    bare.(guid := probes.guid(bare), fsLabel := probes.fsLabel(bare), partGuid := partGuid)
  }

  // ---------------------------------------------------------------- GPT

  /** "EFI PART". */
  const EFI_PART: seq<byte> := [0x45, 0x46, 0x49, 0x20, 0x50, 0x41, 0x52, 0x54]
  const GPT_REVISION: nat := 0x0001_0000
  /** `sizeof(struct gpt_table_header)` and `sizeof(struct gpt_entry)`. */
  const GPT_HEADER_SIZE: nat := 92
  const GPT_ENTRY_SIZE: nat := 128

  /** The fields of `struct gpt_table_header` the resolver uses. */
  datatype GptHeader = GptHeader(revision: nat, diskGuid: Guid, entryLba: nat, numEntries: nat, entrySize: nat)

  function ParseGptHeader(h: seq<byte>): (r: GptHeader)
    requires |h| == GPT_HEADER_SIZE
    ensures r.revision <= U32_MAX && r.numEntries <= U32_MAX && r.entrySize <= U32_MAX && r.entryLba <= U64_MAX
  {
    GptHeader(LE32(h, 8), h[56..72], LE64(h, 72), LE32(h, 80), LE32(h, 84))
  }

  /** The fields of `struct gpt_entry` the resolver uses. */
  datatype GptEntry = GptEntry(uniqueGuid: Guid, startingLba: nat, endingLba: nat)

  function ParseGptEntry(e: seq<byte>): (r: GptEntry)
    requires |e| == GPT_ENTRY_SIZE
    ensures r.startingLba <= U64_MAX && r.endingLba <= U64_MAX
  {
    GptEntry(e[16..32], LE64(e, 32), LE64(e, 40))
  }

  const ZERO_GUID: Guid := [0, 0, 0, 0, 0, 0, 0, 0, 0, 0, 0, 0, 0, 0, 0, 0]

  /** The header probe shared by `gpt_get_guid` and `gpt_get_part`: the
      logical block size (512, then 4096) at which a readable header with the
      "EFI PART" signature sits, and that header. */
  function GptLocate(v: Volume): (r: Option<(nat, GptHeader)>)
    requires WellFormed(v)
    ensures r.Some? ==> (r.value.0 == 512 || r.value.0 == 4096)
    ensures r.Some? ==> GptSignatureAt(v, r.value.0)
    ensures r.Some? ==> r.value.1 == ParseGptHeader(Read(v, r.value.0, GPT_HEADER_SIZE).value)
    ensures r.None? <==> !GptSignatureAt(v, 512) && !GptSignatureAt(v, 4096)
    ensures r.Some? && r.value.0 == 4096 ==> !GptSignatureAt(v, 512)
  {
    if GptSignatureAt(v, 512) then Some((512, ParseGptHeader(Read(v, 512, GPT_HEADER_SIZE).value)))
    else if GptSignatureAt(v, 4096) then Some((4096, ParseGptHeader(Read(v, 4096, GPT_HEADER_SIZE).value)))
    else None
  }

  predicate GptSignatureAt(v: Volume, loc: nat)
    requires WellFormed(v)
  {
    Read(v, loc, GPT_HEADER_SIZE).Some? && Read(v, loc, GPT_HEADER_SIZE).value[..8] == EFI_PART
  }

  /** `gpt_get_guid`: the disk GUID of a GPT of the supported revision. */
  function GptGetGuid(v: Volume): (r: Option<Guid>)
    requires WellFormed(v)
    ensures r.Some? <==> GptLocate(v).Some? && GptLocate(v).value.1.revision == GPT_REVISION
    ensures r.Some? ==> r.value == GptLocate(v).value.1.diskGuid
  {
    match GptLocate(v)
    case None => None
    case Some((_, h)) => if h.revision != GPT_REVISION then None else Some(h.diskGuid)
  }

  /** `x * (lb_size / 512)` for the two probed logical block sizes. */
  function ScaleToSectors(x: nat, lb: nat): (r: nat)
    ensures lb == 512 ==> r == x
    ensures lb == 4096 ==> r == 8 * x
  {
    if lb == 4096 then 8 * x else x
  }

  /** Byte offset of entry `p` of the partition entry array, or None when the
      64-bit computation overflows. */
  function GptEntryOffset(lb: nat, h: GptHeader, p: nat): Option<nat>
  {
    var base := if lb == 4096 then 4096 * h.entryLba else 512 * h.entryLba;
    if base > U64_MAX then None
    else if base + p * h.entrySize > U64_MAX then None
    else Some(base + p * h.entrySize)
  }

  /** The entry `p` of the table, when its offset can be computed and read. */
  function GptEntryRead(v: Volume, lb: nat, h: GptHeader, p: nat): Option<GptEntry>
    requires WellFormed(v)
  {
    match GptEntryOffset(lb, h, p)
    case None => None
    case Some(off) =>
      match Read(v, off, GPT_ENTRY_SIZE)
      case None => None
      case Some(bytes) => Some(ParseGptEntry(bytes))
  }

  /** `gpt_get_part`. */
  function GptGetPart(v: Volume, p: nat, probes: Probes): (r: PartResult)
    requires WellFormed(v) && p <= INT_MAX
    // The three ways a table is invalid, and nothing else makes it so.
    ensures GptLocate(v).None? ==> r == InvalidTable
    ensures GptLocate(v).Some? && GptLocate(v).value.1.revision != GPT_REVISION ==> r == InvalidTable
    ensures (GptLocate(v).Some? && GptLocate(v).value.1.revision == GPT_REVISION &&
             p < GptLocate(v).value.1.numEntries && GptLocate(v).value.1.entrySize < GPT_ENTRY_SIZE) ==>
      r == InvalidTable
    ensures r == InvalidTable ==>
      GptLocate(v).None? || GptLocate(v).value.1.revision != GPT_REVISION ||
      GptLocate(v).value.1.entrySize < GPT_ENTRY_SIZE ||
      GptEntryOffset(GptLocate(v).value.0, GptLocate(v).value.1, p).None?
    // Index past the table.
    ensures (GptLocate(v).Some? && GptLocate(v).value.1.revision == GPT_REVISION &&
             p >= GptLocate(v).value.1.numEntries) ==> r == EndOfTable
    // A found partition: a real entry whose geometry passes the checks.
    ensures r.Found? ==>
      GptLocate(v).Some? && GptLocate(v).value.1.revision == GPT_REVISION &&
      p < GptLocate(v).value.1.numEntries && GptLocate(v).value.1.entrySize >= GPT_ENTRY_SIZE &&
      GptEntryRead(v, GptLocate(v).value.0, GptLocate(v).value.1, p).Some?
    ensures r.Found? ==>
      var e := GptEntryRead(v, GptLocate(v).value.0, GptLocate(v).value.1, p).value;
      r.vol.sectCount.Some? && r.vol.partGuid == Some(e.uniqueGuid) &&
      GptGeometry(e, GptLocate(v).value.0) == Some((r.vol.firstSect, r.vol.sectCount.value))
    ensures r.Found? ==> r.vol.partition == p + 1 && r.vol.backing == Some(v) && SameDrive(r.vol, v) && WellFormed(r.vol)
  {
    match GptLocate(v)
    case None => InvalidTable
    case Some((lb, h)) =>
      if h.revision != GPT_REVISION then InvalidTable
      else if p >= h.numEntries then EndOfTable
      else if h.entrySize < GPT_ENTRY_SIZE then InvalidTable
      else if GptEntryOffset(lb, h, p).None? then InvalidTable
      else match GptEntryRead(v, lb, h, p)
        case None => EndOfTable
        case Some(e) =>
          match GptGeometry(e, lb)
          case None => NoPartition
          case Some((first, count)) =>
            Found(Carve(v, p + 1, first, count, Some(v), probes, Some(e.uniqueGuid)))
  }

  /** The first sector and sector count (in 512-byte units) of a used entry,
      or None when `gpt_get_part` reports no partition for it: an all-zero
      unique GUID, an ending block before the starting one, or a 64-bit
      overflow in the scaled start, the block count or the scaled count. */
  function GptGeometry(e: GptEntry, lb: nat): (r: Option<(nat, nat)>)
    ensures r.Some? <==>
      e.uniqueGuid != ZERO_GUID && e.startingLba <= e.endingLba &&
      ScaleToSectors(e.startingLba, lb) <= U64_MAX && e.endingLba - e.startingLba < U64_MAX &&
      ScaleToSectors(e.endingLba - e.startingLba + 1, lb) <= U64_MAX
    ensures r.Some? ==>
      r.value.0 == ScaleToSectors(e.startingLba, lb) &&
      r.value.1 == ScaleToSectors(e.endingLba - e.startingLba + 1, lb)
  {
    if e.uniqueGuid == ZERO_GUID then None
    else if e.endingLba < e.startingLba then None
    else if ScaleToSectors(e.startingLba, lb) > U64_MAX then None
    else if e.endingLba - e.startingLba == U64_MAX then None
    else if ScaleToSectors(e.endingLba - e.startingLba + 1, lb) > U64_MAX then None
    else Some((ScaleToSectors(e.startingLba, lb), ScaleToSectors(e.endingLba - e.startingLba + 1, lb)))
  }

  /** An entry whose unique GUID is all zeroes, or whose last block precedes
      its first, is an unused slot. */
  lemma GptUnusedEntry(v: Volume, p: nat, probes: Probes)
    requires WellFormed(v) && p <= INT_MAX
    requires GptLocate(v).Some? && GptLocate(v).value.1.revision == GPT_REVISION
    requires p < GptLocate(v).value.1.numEntries && GptLocate(v).value.1.entrySize >= GPT_ENTRY_SIZE
    requires GptEntryRead(v, GptLocate(v).value.0, GptLocate(v).value.1, p).Some?
    requires var e := GptEntryRead(v, GptLocate(v).value.0, GptLocate(v).value.1, p).value;
      e.uniqueGuid == ZERO_GUID || e.endingLba < e.startingLba
    ensures GptGetPart(v, p, probes) == NoPartition
  {
  }

  /** Past the header checks, the entry decides: an entry that cannot be
      read ends the table, one without valid geometry (a zero GUID, an
      ending block before the starting one, or a 64-bit overflow of the
      scaled start or count) is no partition, and any other is found with
      exactly that geometry and its unique GUID. */
  lemma GptPartGeometry(v: Volume, p: nat, probes: Probes)
    requires WellFormed(v) && p <= INT_MAX
    requires GptLocate(v).Some? && GptLocate(v).value.1.revision == GPT_REVISION
    requires p < GptLocate(v).value.1.numEntries && GptLocate(v).value.1.entrySize >= GPT_ENTRY_SIZE
    requires GptEntryOffset(GptLocate(v).value.0, GptLocate(v).value.1, p).Some?
    ensures var lb := GptLocate(v).value.0; var h := GptLocate(v).value.1;
      var off := GptEntryOffset(lb, h, p).value;
      var e := GptEntryRead(v, lb, h, p); var r := GptGetPart(v, p, probes);
      (Read(v, off, GPT_ENTRY_SIZE).None? <==> e.None?) &&
      (e.None? ==> r == EndOfTable) &&
      (e.Some? && GptGeometry(e.value, lb).None? ==> r == NoPartition) &&
      (r.Found? <==> e.Some? && GptGeometry(e.value, lb).Some?) &&
      (r.Found? ==> r.vol.firstSect == GptGeometry(e.value, lb).value.0 &&
                    r.vol.sectCount == Some(GptGeometry(e.value, lb).value.1) &&
                    r.vol.partGuid == Some(e.value.uniqueGuid))
  {
  }

  // ---------------------------------------------------------------- MBR

  /** `struct mbr_entry`: type byte at +4, first sector at +8, count at +12. */
  datatype MbrEntry = MbrEntry(status: byte, partType: byte, firstSect: nat, sectCount: nat)

  function ParseMbrEntry(e: seq<byte>): (r: MbrEntry)
    requires |e| == 16
    ensures r.firstSect <= U32_MAX && r.sectCount <= U32_MAX
  {
    MbrEntry(e[0], e[4], LE32(e, 8), LE32(e, 12))
  }

  /** The entry of sixteen bytes at `loc`, if it can be read. */
  function MbrEntryAt(v: Volume, loc: nat): Option<MbrEntry>
    requires WellFormed(v)
  {
    match Read(v, loc, 16)
    case None => None
    case Some(e) => Some(ParseMbrEntry(e))
  }

  /** Extended-partition (container) types: CHS 0x05 and LBA 0x0f. */
  predicate IsExtendedType(t: byte)
  {
    t == 0x05 || t == 0x0f
  }

  /** The byte at `loc` is a boot indicator (0x00 or 0x80). */
  predicate BootFlagAt(v: Volume, loc: nat)
    requires WellFormed(v)
  {
    Read(v, loc, 1).Some? && (Read(v, loc, 1).value[0] == 0x00 || Read(v, loc, 1).value[0] == 0x80)
  }

  /** The bytes at `loc` can be read and differ from `s`. */
  predicate ReadsOtherThan(v: Volume, loc: nat, s: seq<byte>)
    requires WellFormed(v)
  {
    Read(v, loc, |s|).Some? && Read(v, loc, |s|).value != s
  }

  const NTFS: seq<byte> := [0x4E, 0x54, 0x46, 0x53]
  const FAT: seq<byte> := [0x46, 0x41, 0x54]
  const FAT32: seq<byte> := [0x46, 0x41, 0x54, 0x33, 0x32]
  const EXT2_MAGIC: nat := 0xef53

  /** `is_valid_mbr`: four boot indicators, and none of the marks of an NTFS,
      FAT or ext2/3/4 boot sector (which would otherwise pass as an MBR). */
  predicate IsValidMbr(v: Volume)
    requires WellFormed(v)
  {
    BootFlagAt(v, 446) && BootFlagAt(v, 462) && BootFlagAt(v, 478) && BootFlagAt(v, 494) &&
    ReadsOtherThan(v, 3, NTFS) && ReadsOtherThan(v, 54, FAT) && ReadsOtherThan(v, 82, FAT) &&
    ReadsOtherThan(v, 3, FAT32) &&
    Read(v, 1080, 2).Some? && LE16(Read(v, 1080, 2).value, 0) != EXT2_MAGIC
  }

  /** A boot sector carrying any of the filesystem marks is never taken for an MBR. */
  lemma FilesystemIsNotMbr(v: Volume)
    requires WellFormed(v)
    requires (Read(v, 3, 4) == Some(NTFS)) || (Read(v, 54, 3) == Some(FAT)) ||
             (Read(v, 82, 3) == Some(FAT)) || (Read(v, 3, 5) == Some(FAT32)) ||
             (Read(v, 1080, 2).Some? && LE16(Read(v, 1080, 2).value, 0) == EXT2_MAGIC)
    ensures !IsValidMbr(v)
  {
  }

  /** `mbr_get_id`: the 32-bit disk signature at 0x1b8 of a valid MBR, else 0. */
  function MbrGetId(v: Volume): (r: nat)
    requires WellFormed(v)
    ensures r <= U32_MAX
    ensures !IsValidMbr(v) || Read(v, 0x1b8, 4).None? ==> r == 0
    ensures IsValidMbr(v) && Read(v, 0x1b8, 4).Some? ==> r == LE32(Read(v, 0x1b8, 4).value, 0)
  {
    if !IsValidMbr(v) then 0
    else match Read(v, 0x1b8, 4)
      case None => 0
      case Some(b) => LE32(b, 0)
  }

  /** `MAX_LOGICAL_PARTITIONS`. */
  const MAX_LOGICAL: nat := 256

  /** `sect_count` as the C field holds it: `(uint64_t)-1` when unknown. */
  function SectCountField(v: Volume): nat
  {
    if v.sectCount.Some? then v.sectCount.value else U64_MAX
  }

  predicate StrictlyIncreasing(s: seq<nat>)
  {
    forall i, j :: 0 <= i < j < |s| ==> s[i] < s[j]
  }

  /** The EBR sectors (relative to the extended partition, in 512-byte units)
      that `mbr_get_logical_part` visits in its first `n` iterations, or None
      when the walk ends the table: an unreadable link, a link whose type is
      not extended, or a next sector that is 0, does not increase, or lies
      outside the extended partition. */
  function EbrTrail(ext: Volume, n: nat): (r: Option<seq<nat>>)
    requires WellFormed(ext)
    ensures r.Some? ==> |r.value| == n && StrictlyIncreasing(r.value)
    ensures r.Some? ==> forall k :: 0 <= k < n ==> 0 < r.value[k] < SectCountField(ext)
    decreases n
  {
    if n == 0 then Some([])
    else match EbrTrail(ext, n - 1)
      case None => None
      case Some(t) =>
        var ebr := if t == [] then 0 else t[|t| - 1];
        match MbrEntryAt(ext, ebr * 512 + 0x1ce)
        case None => None
        case Some(link) =>
          if !IsExtendedType(link.partType) then None
          else if link.firstSect == 0 || (n - 1 > 0 && link.firstSect <= ebr) then None
          else if link.firstSect >= SectCountField(ext) then None
          else Some(t + [link.firstSect])
  }

  /** The walk is cycle-safe: a chain that visits `n` distinct EBRs inside an
      extended partition of `c` sectors has fewer than `c` links. */
  lemma {:induction false} EbrTrailBounded(ext: Volume, n: nat)
    requires WellFormed(ext) && EbrTrail(ext, n).Some?
    ensures n < SectCountField(ext) || n == 0
  {
    var t := EbrTrail(ext, n).value;
    if n > 0 {
      IncreasingFloor(t);
      assert t[n - 1] >= n;
    }
  }

  /** Every element of a strictly increasing sequence of positive numbers is
      at least its position plus one. */
  lemma {:induction false} IncreasingFloor(t: seq<nat>)
    requires StrictlyIncreasing(t) && forall k :: 0 <= k < |t| ==> t[k] > 0
    ensures forall k :: 0 <= k < |t| ==> t[k] >= k + 1
    decreases |t|
  {
    if |t| > 0 {
      var u := t[..|t| - 1];
      assert forall k :: 0 <= k < |u| ==> u[k] == t[k];
      IncreasingFloor(u);
      if |t| > 1 {
        assert t[|t| - 2] < t[|t| - 1];
      }
    }
  }

  /** The EBR sector (relative to the extended partition) that holds the
      entry of logical partition `p`, or None when the walk ends the table. */
  function LogicalEbr(ext: Volume, p: nat): (r: Option<nat>)
    requires WellFormed(ext)
    ensures r.Some? ==> p < MAX_LOGICAL && EbrTrail(ext, p).Some?
    ensures p < MAX_LOGICAL && EbrTrail(ext, p).Some? ==> r.Some?
    ensures r.Some? && p > 0 ==> 0 < r.value < SectCountField(ext)
    ensures p == 0 ==> r == Some(0)
  {
    if p >= MAX_LOGICAL then None
    else match EbrTrail(ext, p)
      case None => None
      case Some(t) => Some(if t == [] then 0 else t[|t| - 1])
  }

  /** `mbr_get_logical_part`: logical partition `p` (0-based) of `ext`. */
  function MbrGetLogicalPart(ext: Volume, p: nat, probes: Probes): (r: PartResult)
    requires WellFormed(ext) && p <= INT_MAX
    ensures p >= MAX_LOGICAL ==> r == EndOfTable
    ensures LogicalEbr(ext, p).None? ==> r == EndOfTable
    ensures LogicalEbr(ext, p).Some? ==> r == LogicalAt(ext, LogicalEbr(ext, p).value, p, probes)
    ensures r != InvalidTable
    ensures r.Found? ==>
      r.vol.partition == p + 5 && r.vol.backing == ext.backing && r.vol.partGuid.None? &&
      SameDrive(r.vol, ext) && WellFormed(r.vol)
  {
    match LogicalEbr(ext, p)
    case None => EndOfTable
    case Some(ebr) => LogicalAt(ext, ebr, p, probes)
  }

  /** The logical partition described by the entry at offset 0x1be of the
      EBR at sector `ebr` of `ext`. */
  function LogicalAt(ext: Volume, ebr: nat, p: nat, probes: Probes): (r: PartResult)
    requires WellFormed(ext) && p <= INT_MAX
    ensures r != InvalidTable
    ensures MbrEntryAt(ext, ebr * 512 + 0x1be).None? ==> r == EndOfTable
    ensures r.Found? ==>
      r.vol.partition == p + 5 && r.vol.backing == ext.backing && r.vol.partGuid.None? &&
      SameDrive(r.vol, ext) && WellFormed(r.vol)
  {
    match MbrEntryAt(ext, ebr * 512 + 0x1be)
    case None => EndOfTable
    case Some(e) =>
      match LogicalGeometry(ext, ebr, e)
      case None => NoPartition
      case Some((first, count)) => Found(Carve(ext, p + 5, first, count, ext.backing, probes, None))
  }

  /** A logical partition is found exactly when its EBR entry can be read
      and describes one, and then it has that entry's geometry. */
  lemma LogicalPartGeometry(ext: Volume, ebr: nat, p: nat, probes: Probes)
    requires WellFormed(ext) && p <= INT_MAX
    ensures var r := LogicalAt(ext, ebr, p, probes); var e := MbrEntryAt(ext, ebr * 512 + 0x1be);
      (r.Found? <==> e.Some? && LogicalGeometry(ext, ebr, e.value).Some?) &&
      (r.Found? ==> r.vol.sectCount.Some? &&
                    LogicalGeometry(ext, ebr, e.value) == Some((r.vol.firstSect, r.vol.sectCount.value)))
  {
  }

  /** The first sector and sector count of the logical partition described by
      entry `e` of the EBR at sector `ebr` of `ext`, or None when
      `mbr_get_logical_part` reports no partition: an empty type, a zero
      count, or a 64-bit overflow of the start or the end. */
  function LogicalGeometry(ext: Volume, ebr: nat, e: MbrEntry): (r: Option<(nat, nat)>)
    ensures r.Some? <==>
      e.partType != 0 && e.sectCount != 0 && ext.firstSect + ebr + e.firstSect + e.sectCount <= U64_MAX
    ensures r.Some? ==> r.value == (ext.firstSect + ebr + e.firstSect, e.sectCount)
  {
    if e.partType == 0 then None
    else if e.sectCount == 0 then None
    else if ext.firstSect + ebr > U64_MAX then None
    else if ext.firstSect + ebr + e.firstSect > U64_MAX then None
    else if ext.firstSect + ebr + e.firstSect + e.sectCount > U64_MAX then None
    else Some((ext.firstSect + ebr + e.firstSect, e.sectCount))
  }

  /** The descriptor `mbr_get_part` builds for the extended partition found
      in primary slot `i`. */
  function ExtendedVolume(v: Volume, i: nat, e: MbrEntry): (r: Volume)
    requires WellFormed(v)
    ensures WellFormed(r) && SameDrive(r, v) && r.backing == Some(v)
    ensures r.firstSect == e.firstSect && r.sectCount == Some(e.sectCount) && r.partition == i + 1
  {
    Volume(v.dev, v.sectorSize, e.firstSect, Some(e.sectCount), v.fastestXferSize,
           v.index, v.isOptical, i + 1, None, None, None, Some(v))
  }

  /** The first primary slot from `i` on that holds a non-empty extended
      partition. */
  function FindExtended(v: Volume, i: nat): (r: Option<nat>)
    requires WellFormed(v) && i <= 4
    ensures r.Some? ==> i <= r.value < 4
    decreases 4 - i
  {
    if i == 4 then None
    else if ExtendedSlot(v, i) then Some(i)
    else FindExtended(v, i + 1)
  }

  /** What `FindExtended` finds is an extended slot. */
  lemma {:induction false} FindExtendedFound(v: Volume, i: nat)
    requires WellFormed(v) && i <= 4 && FindExtended(v, i).Some?
    ensures ExtendedSlot(v, FindExtended(v, i).value)
    decreases 4 - i
  {
    if !ExtendedSlot(v, i) {
      FindExtendedFound(v, i + 1);
    }
  }

  /** `FindExtended` finds the first extended slot from `i` on: every slot
      it passes over, or every slot when it finds none, is not one. */
  lemma {:induction false} FindExtendedFirst(v: Volume, i: nat, j: nat)
    requires WellFormed(v) && i <= j < 4
    requires FindExtended(v, i).None? || j < FindExtended(v, i).value
    ensures !ExtendedSlot(v, j)
    decreases 4 - i
  {
    if !ExtendedSlot(v, i) {
      assert FindExtended(v, i) == FindExtended(v, i + 1);
      if i < j {
        FindExtendedFirst(v, i + 1, j);
      }
    }
  }

  /** Primary slot `j` holds a readable, non-empty extended partition: its
      type byte is an extended type and its sector count field is not all
      zero bytes. */
  predicate ExtendedSlot(v: Volume, j: nat)
    requires WellFormed(v)
  {
    match Read(v, 0x1be + 16 * j, 16)
    case None => false
    case Some(e) => IsExtendedType(e[4]) && e[12..16] != [0, 0, 0, 0]
  }

  /** `ExtendedSlot` is the test `mbr_get_part` applies to the parsed entry. */
  lemma ExtendedSlotEntry(v: Volume, j: nat)
    requires WellFormed(v)
    ensures ExtendedSlot(v, j) <==>
      MbrEntryAt(v, 0x1be + 16 * j).Some? &&
      IsExtendedType(MbrEntryAt(v, 0x1be + 16 * j).value.partType) &&
      MbrEntryAt(v, 0x1be + 16 * j).value.sectCount != 0
  {
    if Read(v, 0x1be + 16 * j, 16).Some? {
      LE32Zero(Read(v, 0x1be + 16 * j, 16).value, 12);
    }
  }

  /** `mbr_get_part`: a primary slot for indices 0-3, else a logical
      partition of the first extended partition. */
  function MbrGetPart(v: Volume, p: nat, probes: Probes): (r: PartResult)
    requires WellFormed(v) && p <= INT_MAX
    ensures !IsValidMbr(v) <==> r == InvalidTable
    ensures IsValidMbr(v) && p > 3 ==> r == MbrGetExtended(v, p - 4, probes)
    ensures IsValidMbr(v) && p <= 3 ==> r == MbrGetPrimary(v, p, probes)
    ensures r.Found? ==> r.vol.partition == p + 1 && r.vol.backing == Some(v) && SameDrive(r.vol, v) && WellFormed(r.vol)
  {
    if !IsValidMbr(v) then InvalidTable
    else if p > 3 then MbrGetExtended(v, p - 4, probes)
    else MbrGetPrimary(v, p, probes)
  }

  /** The descriptor of the first non-empty extended partition among the
      four primary slots, if there is one. */
  function ExtendedOf(v: Volume): (r: Option<Volume>)
    requires WellFormed(v)
    ensures r.None? <==> FindExtended(v, 0).None?
    ensures r.Some? ==> WellFormed(r.value) && SameDrive(r.value, v) && r.value.backing == Some(v)
    ensures r.Some? ==> r.value.partition == FindExtended(v, 0).value + 1
  {
    match FindExtended(v, 0)
    case None => None
    case Some(i) => Some(ExtendedVolume(v, i, MbrEntryAt(v, 0x1be + 16 * i).value))
  }

  /** The extended partition spans exactly the sectors its primary entry
      describes, and that entry has an extended type and a non-zero count. */
  lemma ExtendedOfEntry(v: Volume, i: nat)
    requires WellFormed(v) && FindExtended(v, 0) == Some(i)
    ensures MbrEntryAt(v, 0x1be + 16 * i).Some?
    ensures var e := MbrEntryAt(v, 0x1be + 16 * i).value;
      IsExtendedType(e.partType) && e.sectCount != 0 &&
      ExtendedOf(v).Some? && ExtendedOf(v).value.firstSect == e.firstSect &&
      ExtendedOf(v).value.sectCount == Some(e.sectCount)
  {
    ExtendedSlotEntry(v, i);
  }

  /** The logical partition `q` of the first non-empty extended partition;
      the end of the table when there is none. */
  function MbrGetExtended(v: Volume, q: nat, probes: Probes): (r: PartResult)
    requires WellFormed(v) && q + 4 <= INT_MAX
    ensures r != InvalidTable
    ensures ExtendedOf(v).None? ==> r == EndOfTable
    ensures ExtendedOf(v).Some? ==> r == MbrGetLogicalPart(ExtendedOf(v).value, q, probes)
    ensures r.Found? ==> r.vol.partition == q + 5 && r.vol.backing == Some(v) && SameDrive(r.vol, v) && WellFormed(r.vol)
  {
    match ExtendedOf(v)
    case None => EndOfTable
    case Some(ext) => MbrGetLogicalPart(ext, q, probes)
  }

  /** Primary slot `p`: the end of the table when it cannot be read, no
      partition when its type or its sector count is 0. */
  function MbrGetPrimary(v: Volume, p: nat, probes: Probes): (r: PartResult)
    requires WellFormed(v) && p <= 3
    ensures r != InvalidTable
    ensures MbrEntryAt(v, 0x1be + 16 * p).None? ==> r == EndOfTable
    ensures r.Found? ==> r.vol.partition == p + 1 && r.vol.backing == Some(v) && SameDrive(r.vol, v) && WellFormed(r.vol)
  {
    match MbrEntryAt(v, 0x1be + 16 * p)
    case None => EndOfTable
    case Some(e) =>
      if e.partType == 0 then NoPartition
      else if e.sectCount == 0 then NoPartition
      else Found(Carve(v, p + 1, e.firstSect, e.sectCount, Some(v), probes, None))
  }

  /** A primary partition is found exactly when its slot holds a non-empty
      entry of a non-zero type, and then it has that entry's geometry. */
  lemma PrimaryPartGeometry(v: Volume, p: nat, probes: Probes)
    requires WellFormed(v) && p <= 3
    ensures var r := MbrGetPrimary(v, p, probes); var e := MbrEntryAt(v, 0x1be + 16 * p);
      (r.Found? <==> e.Some? && e.value.partType != 0 && e.value.sectCount != 0) &&
      (r.Found? ==> r.vol.firstSect == e.value.firstSect && r.vol.sectCount == Some(e.value.sectCount) &&
                    r.vol.partGuid.None?)
  {
  }

  // ---------------------------------------------------------------- dispatch

  /** `part_get`: GPT first; MBR only when there is no valid GPT. */
  function PartGet(v: Volume, p: int, probes: Probes): (r: PartResult)
    requires WellFormed(v) && p <= INT_MAX
    ensures p < 0 ==> r == NoPartition
    ensures p >= 0 && GptGetPart(v, p, probes) != InvalidTable ==> r == GptGetPart(v, p, probes)
    ensures p >= 0 && GptGetPart(v, p, probes) == InvalidTable ==> r == MbrGetPart(v, p, probes)
  {
    if p < 0 then NoPartition
    else
      var g := GptGetPart(v, p, probes);
      if g != InvalidTable then g
      else
        var m := MbrGetPart(v, p, probes);
        if m != InvalidTable then m else InvalidTable
  }

  /** Whatever table it comes from, a partition found by `part_get` is a
      well-formed volume of the same drive, numbered from 1, backed by the
      whole-disk volume. */
  lemma PartGetFound(v: Volume, p: int, probes: Probes)
    requires WellFormed(v) && p <= INT_MAX && PartGet(v, p, probes).Found?
    ensures var w := PartGet(v, p, probes).vol;
      p >= 0 && w.partition == p + 1 && w.backing == Some(v) && SameDrive(w, v) && WellFormed(w)
  {
    if GptGetPart(v, p, probes) == InvalidTable {
      assert PartGet(v, p, probes) == MbrGetPart(v, p, probes);
    } else {
      assert PartGet(v, p, probes) == GptGetPart(v, p, probes);
    }
  }

  /** `part_get` reports an invalid table only when neither a GPT nor an MBR is present. */
  lemma PartGetInvalid(v: Volume, p: int, probes: Probes)
    requires WellFormed(v) && 0 <= p <= INT_MAX
    ensures PartGet(v, p, probes) == InvalidTable <==>
      GptGetPart(v, p, probes) == InvalidTable && !IsValidMbr(v)
  {
  }
}
