/** Volumes: the physical medium as an array of sectors, the `struct volume`
    descriptor, and the byte-range read that `volume_read` performs on it
    (limine/common/lib/part.s2.c:72-106). The block cache that implements that
    read step by step is in module BlockCache; the partition resolver and the
    two filesystem drivers are modelled over the function `Read` below. */
module Volumes {
  import opened Common

  /** Status codes of `disk_read_sectors`. */
  datatype DiskStatus = DiskSuccess | DiskNoMedia | DiskFailure

  /** The medium: `sectorSize`-byte sectors stored back to back in `image`,
      whether a medium is present at all, and the read attempts (first sector,
      sector count) that fail transiently. */
  datatype Device = Device(sectorSize: nat, image: seq<byte>, noMedia: bool, transient: set<(nat, nat)>)

  ghost predicate WellFormedDevice(d: Device)
  {
    d.sectorSize > 0 && |d.image| % d.sectorSize == 0
  }

  /** Number of whole sectors on the medium. */
  function DeviceSectors(d: Device): nat
    requires d.sectorSize > 0
  {
    |d.image| / d.sectorSize
  }

  /** The outcome of one `disk_read_sectors(lba, count)` attempt. */
  function DiskRead(d: Device, lba: nat, count: nat): (r: DiskStatus)
    requires d.sectorSize > 0
    ensures r == DiskSuccess <==>
      !d.noMedia && count > 0 && (lba, count) !in d.transient && lba + count <= DeviceSectors(d)
  {
    if d.noMedia then DiskNoMedia
    else if count == 0 || (lba, count) in d.transient || lba + count > DeviceSectors(d) then DiskFailure
    else DiskSuccess
  }

  /** A device on which the only failing reads are those past its end. */
  ghost predicate Reliable(d: Device)
  {
    d.transient == {}
  }

  type Guid = s: seq<byte> | |s| == 16 witness [0, 0, 0, 0, 0, 0, 0, 0, 0, 0, 0, 0, 0, 0, 0, 0]

  /** `struct volume`: geometry (sector size, first sector in 512-byte units,
      sector count or "unknown", transfer-size hint), coordinates (drive index,
      optical flag, partition number) and identity (GUIDs and label, each
      present or absent), plus the device it was carved from. */
  datatype Volume = Volume(
    dev: Device,
    sectorSize: nat,
    firstSect: nat,
    sectCount: Option<nat>,
    fastestXferSize: nat,
    index: int,
    isOptical: bool,
    partition: int,
    guid: Option<Guid>,
    partGuid: Option<Guid>,
    fsLabel: Option<seq<byte>>,
    backing: Option<Volume>)

  ghost predicate WellFormed(v: Volume)
  {
    v.sectorSize >= 512 && v.sectorSize % 512 == 0 && v.fastestXferSize >= 1 &&
    v.dev.sectorSize == v.sectorSize && WellFormedDevice(v.dev)
  }

  /** Size of one cache block: `fastest_xfer_size * sector_size`. */
  function BlockSize(v: Volume): (r: nat)
    requires WellFormed(v)
    ensures r >= v.sectorSize
  {
    v.fastestXferSize * v.sectorSize
  }

  /** `volume_read`'s bounds check: with a known sector count the read fails if
      the size product overflows 64 bits or the range leaves the volume. */
  predicate BoundsReject(v: Volume, loc: nat, count: nat)
  {
    v.sectCount.Some? &&
    (v.sectCount.value * v.sectorSize > U64_MAX ||
     loc >= v.sectCount.value * v.sectorSize ||
     count > v.sectCount.value * v.sectorSize - loc)
  }

  /** `cache_block` gives up before reading when the first sector of the
      volume is not a whole number of device sectors. */
  predicate Aligned(v: Volume)
    requires WellFormed(v)
  {
    v.firstSect % (v.sectorSize / 512) == 0
  }

  /** Device sector that `cache_block` reads first for block `b`:
      `first_sect / (sector_size / 512) + b * fastest_xfer_size`. */
  function BlockLba(v: Volume, b: nat): nat
    requires WellFormed(v)
  {
    v.firstSect / (v.sectorSize / 512) + b * v.fastestXferSize
  }

  /** Whether `cache_block`'s 64-bit sector computation for block `b` overflows. */
  predicate BlockOverflows(v: Volume, b: nat)
    requires WellFormed(v)
  {
    b * v.fastestXferSize > U64_MAX || BlockLba(v, b) > U64_MAX
  }

  /** Byte address on the device of byte 0 of the volume. */
  function Origin(v: Volume): nat
    requires WellFormed(v)
  {
    (v.firstSect / (v.sectorSize / 512)) * v.sectorSize
  }

  /** What a volume's reads see, in linear terms: the device bytes from the
      volume's origin on, the readable size when the sector count is known
      (0 when its byte size overflows 64 bits, so that every read fails),
      and whether sectors can be fetched at all (medium present, first
      sector aligned). */
  datatype Medium = Medium(data: seq<byte>, limit: Option<nat>, present: bool)

  function MediumOf(v: Volume): Medium
    requires WellFormed(v)
  {
    var lim :=
      if v.sectCount.None? then None
      else if v.sectCount.value * v.sectorSize > U64_MAX then Some(0)
      else Some(v.sectCount.value * v.sectorSize);
    var o := Origin(v);
    Medium(if o <= |v.dev.image| then v.dev.image[o..] else [], lim, Aligned(v) && !v.dev.noMedia)
  }

  /** The read of `count` bytes at `loc` of a medium. */
  function MRead(m: Medium, loc: nat, count: nat): (r: Option<seq<byte>>)
    ensures r.Some? ==> |r.value| == count
    ensures r.Some? && count > 0 ==> loc + count <= |m.data| && r.value == m.data[loc .. loc + count]
    ensures r.Some? && m.limit.Some? ==> loc < m.limit.value && loc + count <= m.limit.value
  {
    if m.limit.Some? && (loc >= m.limit.value || count > m.limit.value - loc) then None
    else if count == 0 then Some([])
    else if !m.present || loc + count > |m.data| then None
    else Some(m.data[loc .. loc + count])
  }

  /** The bytes `[loc, loc + count)` of the volume as `volume_read` delivers
      them when no read attempt fails transiently, or None when it fails. */
  function Read(v: Volume, loc: nat, count: nat): (r: Option<seq<byte>>)
    requires WellFormed(v)
    ensures r.Some? ==> |r.value| == count
  {
    MRead(MediumOf(v), loc, count)
  }

  /** A read rejected by `volume_read`'s bounds check fails; a successful read
      of a volume of known size lies inside it, and its bytes are the device
      bytes at the volume's origin plus `loc`. */
  lemma ReadBounds(v: Volume, loc: nat, count: nat)
    requires WellFormed(v)
    ensures BoundsReject(v, loc, count) ==> Read(v, loc, count).None?
    ensures Read(v, loc, count).Some? && v.sectCount.Some? ==>
      loc + count <= v.sectCount.value * v.sectorSize <= U64_MAX
    ensures Read(v, loc, count).Some? && count > 0 ==>
      Aligned(v) && !v.dev.noMedia && Origin(v) + loc + count <= |v.dev.image| &&
      Read(v, loc, count).value == v.dev.image[Origin(v) + loc .. Origin(v) + loc + count]
  {
  }

  /** One byte of the volume. */
  function ByteAt(v: Volume, x: nat): (r: Option<byte>)
    requires WellFormed(v)
  {
    match Read(v, x, 1)
    case Some(s) => Some(s[0])
    case None => None
  }

  /** A read that succeeds delivers, inside it, exactly what a smaller read of
      the same range delivers: reads have no seams. */
  lemma ReadSub(v: Volume, loc: nat, n: nat, loc2: nat, n2: nat)
    requires WellFormed(v) && Read(v, loc, n).Some?
    requires loc <= loc2 && loc2 + n2 <= loc + n && n2 > 0
    ensures Read(v, loc2, n2) == Some(Read(v, loc, n).value[loc2 - loc .. loc2 - loc + n2])
  {
    var d := MediumOf(v).data;
    assert d[loc2 .. loc2 + n2] == d[loc .. loc + n][loc2 - loc .. loc2 - loc + n2];
  }

  /** A read succeeds exactly when all of its bytes can be read one at a time,
      and then it is those bytes. */
  lemma ReadBytewise(v: Volume, loc: nat, n: nat)
    requires WellFormed(v) && n > 0
    ensures Read(v, loc, n).Some? <==> forall x :: loc <= x < loc + n ==> ByteAt(v, x).Some?
    ensures Read(v, loc, n).Some? ==>
      forall x :: loc <= x < loc + n ==> ByteAt(v, x) == Some(Read(v, loc, n).value[x - loc])
  {
    if Read(v, loc, n).Some? {
      forall x | loc <= x < loc + n
        ensures ByteAt(v, x) == Some(Read(v, loc, n).value[x - loc])
      {
        ReadSub(v, loc, n, x, 1);
      }
    } else {
      assert ByteAt(v, loc + n - 1).None?;
    }
  }

  /** Block `b` of the volume begins on the device at byte `b * BlockSize`
      past the volume's origin. */
  lemma BlockLbaBytes(v: Volume, b: nat)
    requires WellFormed(v)
    ensures BlockLba(v, b) * v.sectorSize == Origin(v) + b * BlockSize(v)
  {
    var f := v.firstSect / (v.sectorSize / 512);
    calc {
      BlockLba(v, b) * v.sectorSize;
      (f + b * v.fastestXferSize) * v.sectorSize;
      f * v.sectorSize + (b * v.fastestXferSize) * v.sectorSize;
      { assert (b * v.fastestXferSize) * v.sectorSize == b * (v.fastestXferSize * v.sectorSize); }
      Origin(v) + b * BlockSize(v);
    }
  }

  /** On a well-formed device the sector count times the sector size is the
      image length. */
  lemma DeviceBytes(d: Device)
    requires WellFormedDevice(d)
    ensures DeviceSectors(d) * d.sectorSize == |d.image|
  {
  }
}
