/** The FAT driver's view of a volume: the BIOS parameter block in its first
    512 bytes, the checks `fat32_init_context` applies to it and the geometry
    it derives from it (limine/common/fs/fat32.s2.c:17-100,102-216), following
    section 3.5 of Microsoft's FAT specification for the type classification. */
module FatContext {
  import opened Common
  import opened Volumes
  import Partitions

  /** The fields of `struct fat32_bpb` the driver uses, by byte offset. */
  datatype Bpb = Bpb(
    bytesPerSector: nat,       // +11, 16 bits
    sectorsPerCluster: nat,    // +13
    reservedSectors: nat,      // +14, 16 bits
    fatsCount: nat,            // +16
    rootEntriesCount: nat,     // +17, 16 bits
    sectorsCount16: nat,       // +19, 16 bits
    sectorsPerFat16: nat,      // +22, 16 bits
    hiddenSectors: nat,        // +28, 32 bits
    sectorsCount32: nat,       // +32, 32 bits
    sectorsPerFat32: nat,      // +36, 32 bits
    rootDirectoryCluster: nat) // +44, 32 bits

  function ParseBpb(b: seq<byte>): (r: Bpb)
    requires |b| == 512
    ensures r.bytesPerSector <= U16_MAX && r.sectorsPerCluster < 256 && r.reservedSectors <= U16_MAX
    ensures r.fatsCount < 256 && r.rootEntriesCount <= U16_MAX
    ensures r.sectorsCount16 <= U16_MAX && r.sectorsPerFat16 <= U16_MAX
    ensures r.sectorsCount32 <= U32_MAX && r.sectorsPerFat32 <= U32_MAX && r.rootDirectoryCluster <= U32_MAX
  {
    Bpb(LE16(b, 11), b[13], LE16(b, 14), b[16], LE16(b, 17), LE16(b, 19), LE16(b, 22),
        LE32(b, 28), LE32(b, 32), LE32(b, 36), LE32(b, 44))
  }

  /** "FAT" at 0x36 (FAT12/16), "FAT" at 0x52 (FAT32), or "FAT32" at 0x03. */
  predicate HasFatSignature(b: seq<byte>)
    requires |b| == 512
  {
    b[0x36 .. 0x39] == Partitions.FAT || b[0x52 .. 0x55] == Partitions.FAT || b[0x03 .. 0x08] == Partitions.FAT32
  }

  predicate ValidSectorsPerCluster(n: nat)
  {
    n == 1 || n == 2 || n == 4 || n == 8 || n == 16 || n == 32 || n == 64 || n == 128
  }

  predicate ValidBytesPerSector(n: nat)
  {
    n == 512 || n == 1024 || n == 2048 || n == 4096
  }

  /** The sector count: the 16-bit field unless it is 0. */
  function TotalSectors(b: Bpb): nat
  {
    if b.sectorsCount16 != 0 then b.sectorsCount16 else b.sectorsCount32
  }

  /** Sectors per FAT as the classification reads it: the 16-bit field unless it is 0. */
  function AnySectorsPerFat(b: Bpb): nat
  {
    if b.sectorsPerFat16 != 0 then b.sectorsPerFat16 else b.sectorsPerFat32
  }

  /** Sectors taken by the fixed-size root directory of FAT12/16. */
  function RootDirSectors(b: Bpb): nat
    requires b.bytesPerSector > 0
  {
    (b.rootEntriesCount * 32 + b.bytesPerSector - 1) / b.bytesPerSector
  }

  /** Reserved sectors, the FATs and the root directory. */
  function MetadataSectors(b: Bpb): nat
    requires b.bytesPerSector > 0
  {
    b.reservedSectors + b.fatsCount * AnySectorsPerFat(b) + RootDirSectors(b)
  }

  /** Number of data clusters, when the metadata leaves room for data. */
  function ClusterCount(b: Bpb): nat
    requires b.bytesPerSector > 0 && b.sectorsPerCluster > 0
    requires MetadataSectors(b) < TotalSectors(b)
  {
    (TotalSectors(b) - MetadataSectors(b)) / b.sectorsPerCluster
  }

  /** The FAT type is decided by the cluster count alone. */
  function FatTypeOf(clusters: nat): (t: nat)
    ensures t == 12 <==> clusters < 4085
    ensures t == 16 <==> 4085 <= clusters < 65525
    ensures t == 32 <==> clusters >= 65525
  {
    if clusters < 4085 then 12 else if clusters < 65525 then 16 else 32
  }

  /** `struct fat32_context`. */
  datatype FatCtx = FatCtx(
    part: Volume,
    fatType: nat,
    volLabel: Option<seq<byte>>,
    bytesPerSector: nat,
    sectorsPerCluster: nat,
    reservedSectors: nat,
    numberOfFats: nat,
    hiddenSectors: nat,
    sectorsPerFat: nat,
    fatStartLba: nat,
    dataStartLba: nat,
    rootDirectoryCluster: nat,
    rootEntries: nat,
    rootStart: nat,
    rootSize: nat)

  /** What reading through a context needs: a well-formed volume and
      non-empty sectors and clusters. */
  ghost predicate Readable(c: FatCtx)
  {
    WellFormed(c.part) && c.bytesPerSector > 0 && c.sectorsPerCluster > 0
  }

  /** What every context `fat32_init_context` accepts satisfies. */
  ghost predicate ValidCtx(c: FatCtx)
  {
    WellFormed(c.part) &&
    (c.fatType == 12 || c.fatType == 16 || c.fatType == 32) &&
    ValidBytesPerSector(c.bytesPerSector) && ValidSectorsPerCluster(c.sectorsPerCluster) &&
    1 <= c.numberOfFats <= 4 && c.sectorsPerFat >= 1 && c.sectorsPerFat <= U32_MAX &&
    c.reservedSectors <= U16_MAX && c.rootEntries <= U16_MAX && c.rootDirectoryCluster <= U32_MAX &&
    c.fatStartLba == c.reservedSectors &&
    c.rootStart == c.reservedSectors + c.numberOfFats * c.sectorsPerFat && c.rootStart <= U32_MAX &&
    c.rootSize == DivRoundUp(c.rootEntries * 32, c.bytesPerSector) &&
    c.dataStartLba == (if c.fatType == 32 then c.rootStart else c.rootStart + c.rootSize) &&
    c.dataStartLba <= U32_MAX
  }

  /** The part of `fat32_init_context` that validates the BPB and derives the
      geometry; the label is looked up afterwards (FatOpen.InitContext). */
  function ParseContext(v: Volume): (r: Option<FatCtx>)
    requires WellFormed(v)
    ensures r.Some? ==> ValidCtx(r.value) && r.value.part == v && r.value.volLabel.None?
  {
    match Read(v, 0, 512)
    case None => None
    case Some(raw) => if !HasFatSignature(raw) then None else ContextOf(v, ParseBpb(raw))
  }

  /** The checks on the parsed BPB `b` of `v` and the geometry derived from it. */
  function ContextOf(v: Volume, b: Bpb): (r: Option<FatCtx>)
    requires WellFormed(v)
    requires b.reservedSectors <= U16_MAX && b.rootEntriesCount <= U16_MAX
    requires b.sectorsPerFat32 <= U32_MAX && b.rootDirectoryCluster <= U32_MAX
    ensures r.Some? ==> ValidCtx(r.value) && r.value.part == v && r.value.volLabel.None?
  {
    if !ValidSectorsPerCluster(b.sectorsPerCluster) then None
    else if !ValidBytesPerSector(b.bytesPerSector) then None
    else if b.fatsCount == 0 || b.fatsCount > 4 then None
    else if MetadataSectors(b) >= TotalSectors(b) then None
    else
      var t := FatTypeOf(ClusterCount(b));
      var spf := if t == 32 then b.sectorsPerFat32 else b.sectorsPerFat16;
      if spf == 0 then None
      else if b.reservedSectors + b.fatsCount * spf > U32_MAX then None
      else
        var rootStart := b.reservedSectors + b.fatsCount * spf;
        var rootSize := DivRoundUp(b.rootEntriesCount * 32, b.bytesPerSector);
        if t != 32 && rootStart + rootSize > U32_MAX then None
        else
          Some(FatCtx(v, t, None, b.bytesPerSector, b.sectorsPerCluster, b.reservedSectors,
                      b.fatsCount, b.hiddenSectors, spf, b.reservedSectors,
                      if t == 32 then rootStart else rootStart + rootSize,
                      b.rootDirectoryCluster, b.rootEntriesCount, rootStart, rootSize))
  }

  /** The BPB `ParseContext` reads, when it can be read. */
  function BpbOf(v: Volume): Option<Bpb>
    requires WellFormed(v)
  {
    match Read(v, 0, 512)
    case None => None
    case Some(raw) => Some(ParseBpb(raw))
  }

  /** The five checks made before any geometry is computed; failing any one
      of them rejects the volume. */
  lemma ParseContextRejects(v: Volume)
    requires WellFormed(v)
    ensures Read(v, 0, 512).None? ==> ParseContext(v).None?
    ensures Read(v, 0, 512).Some? && !HasFatSignature(Read(v, 0, 512).value) ==> ParseContext(v).None?
    ensures BpbOf(v).Some? && !ValidSectorsPerCluster(BpbOf(v).value.sectorsPerCluster) ==> ParseContext(v).None?
    ensures BpbOf(v).Some? && !ValidBytesPerSector(BpbOf(v).value.bytesPerSector) ==> ParseContext(v).None?
    ensures BpbOf(v).Some? && (BpbOf(v).value.fatsCount == 0 || BpbOf(v).value.fatsCount > 4) ==>
      ParseContext(v).None?
    ensures (BpbOf(v).Some? && ValidBytesPerSector(BpbOf(v).value.bytesPerSector) &&
             MetadataSectors(BpbOf(v).value) >= TotalSectors(BpbOf(v).value)) ==>
      ParseContext(v).None?
  {
  }

  /** An accepted volume's type follows the cluster-count thresholds, its
      sectors-per-FAT is the field belonging to that type, and all of its
      derived offsets fit in 32 bits. */
  lemma ParseContextAccepts(v: Volume)
    requires WellFormed(v) && ParseContext(v).Some?
    ensures var b := BpbOf(v).value; var c := ParseContext(v).value;
      BpbOf(v).Some? && HasFatSignature(Read(v, 0, 512).value) &&
      ValidBytesPerSector(b.bytesPerSector) && b.sectorsPerCluster > 0 &&
      MetadataSectors(b) < TotalSectors(b) &&
      (c.fatType == 12 <==> ClusterCount(b) < 4085) &&
      (c.fatType == 32 <==> ClusterCount(b) >= 65525) &&
      c.sectorsPerFat == (if c.fatType == 32 then b.sectorsPerFat32 else b.sectorsPerFat16)
  {
  }

  /** A volume the FAT driver accepts is never taken for an MBR-partitioned
      disk: the "FAT" marks it requires are exactly those `is_valid_mbr`
      refuses. */
  lemma FatIsNotMbr(v: Volume)
    requires WellFormed(v) && ParseContext(v).Some?
    ensures !Partitions.IsValidMbr(v)
  {
    var raw := Read(v, 0, 512).value;
    if raw[0x36 .. 0x39] == Partitions.FAT {
      ReadSub(v, 0, 512, 0x36, 3);
      assert !Partitions.ReadsOtherThan(v, 54, Partitions.FAT);
    } else if raw[0x52 .. 0x55] == Partitions.FAT {
      ReadSub(v, 0, 512, 0x52, 3);
      assert !Partitions.ReadsOtherThan(v, 82, Partitions.FAT);
    } else {
      ReadSub(v, 0, 512, 0x03, 5);
      assert !Partitions.ReadsOtherThan(v, 3, Partitions.FAT32);
    }
  }

  /** Bytes in one cluster. */
  function ClusterBytes(c: FatCtx): (r: nat)
    requires Readable(c)
    ensures r > 0
  {
    c.sectorsPerCluster * c.bytesPerSector
  }

  /** An accepted context's clusters are whole numbers of 512-byte units,
      from 512 bytes to 512 KiB. */
  lemma ClusterBytesBounds(c: FatCtx)
    requires ValidCtx(c)
    ensures Readable(c) && 512 <= ClusterBytes(c) <= 128 * 4096 && ClusterBytes(c) % 512 == 0
  {
    var s, b := c.sectorsPerCluster, c.bytesPerSector;
    var q := b / 512;
    assert b == 512 * q && 1 <= q <= 8;
    MulMono(s, 128, q);
    MulMono(1, s, q);
    assert s * b == 512 * (s * q);
  }
}
