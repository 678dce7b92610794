/** The single-block read cache of a volume and the byte-range read built on
    it: `cache_block` and `volume_read` (limine/common/lib/part.s2.c:19-106). */
module BlockCache {
  import opened Common
  import opened Volumes

  /** `disk_read_sectors`: on success the `count` sectors starting at `lba`
      are copied to the front of `buf`; bytes past the transfer are left alone. */
  method DiskReadSectors(d: Device, buf: array<byte>, lba: nat, count: nat) returns (st: DiskStatus)
    requires WellFormedDevice(d) && count * d.sectorSize <= buf.Length
    modifies buf
    ensures st == DiskRead(d, lba, count)
    ensures st == DiskSuccess ==> lba * d.sectorSize + count * d.sectorSize <= |d.image|
    ensures st == DiskSuccess ==>
      forall i :: 0 <= i < count * d.sectorSize ==> buf[i] == d.image[lba * d.sectorSize + i]
    ensures forall i :: count * d.sectorSize <= i < buf.Length ==> buf[i] == old(buf[i])
  {
    st := DiskRead(d, lba, count);
    if st != DiskSuccess {
      return;
    }
    MulMono(lba + count, DeviceSectors(d), d.sectorSize);
    DeviceBytes(d);
    var base := lba * d.sectorSize;
    var n := count * d.sectorSize;
    assert base + n <= |d.image|;
    var i := 0;
    while i < n
      invariant 0 <= i <= n
      invariant forall k :: 0 <= k < i ==> buf[k] == d.image[base + k]
      invariant forall k :: n <= k < buf.Length ==> buf[k] == old(buf[k])
    {
      buf[i] := d.image[base + i];
      i := i + 1;
    }
  }

  /** The number of sectors `cache_block`'s retry loop ends up reading, starting
      with `x` sectors at `lba` and dropping one sector after every failure, or
      None when the medium is absent or every size down to 1 fails. */
  function RetryFill(d: Device, lba: nat, x: nat): (r: Option<nat>)
    requires d.sectorSize > 0
    ensures r.Some? ==> 1 <= r.value <= x && DiskRead(d, lba, r.value) == DiskSuccess
    ensures d.noMedia ==> r.None?
    ensures x >= 1 && DiskRead(d, lba, x) == DiskSuccess ==> r == Some(x)
    ensures Reliable(d) && !d.noMedia && x >= 1 && lba < DeviceSectors(d) ==>
      r.Some? && (r.value == x || lba + r.value == DeviceSectors(d))
    decreases x
  {
    if x == 0 then None
    else match DiskRead(d, lba, x)
      case DiskSuccess => Some(x)
      case DiskNoMedia => None
      case DiskFailure => RetryFill(d, lba, x - 1)
  }

  lemma SliceEq(a: seq<byte>, b: seq<byte>, off: nat, n: nat)
    requires n <= |a| && off + n <= |b|
    requires forall i :: 0 <= i < n ==> a[i] == b[off + i]
    ensures a[..n] == b[off .. off + n]
  {
  }

  /** One slice `[start, start + len)` of a `volume_read` request, served from
      bytes `[offset, offset + len)` of cache block `block`. */
  datatype Chunk = Chunk(start: nat, block: nat, offset: nat, len: nat)

  /** A slice lies inside one cache block, at the offset matching its start. */
  predicate InBlock(c: Chunk, bs: nat)
  {
    0 < c.len && c.offset + c.len <= bs && c.block * bs + c.offset == c.start
  }

  /** `ch` is the run of slices `volume_read` cuts `[from, to)` into when the
      whole request ends at `end`: in order, without gaps, each inside one
      cache block and as long as the block and the request allow. */
  predicate Slices(ch: seq<Chunk>, from: nat, to: nat, end: nat, bs: nat)
    decreases |ch|
  {
    if ch == [] then from == to
    else
      ch[0].start == from && InBlock(ch[0], bs) && from + ch[0].len <= to &&
      ch[0].len == (if end - from > bs - ch[0].offset then bs - ch[0].offset else end - from) &&
      Slices(ch[1..], from + ch[0].len, to, end, bs)
  }

  /** Appending the next slice extends the covered range. */
  lemma {:induction false} SlicesSnoc(ch: seq<Chunk>, from: nat, to: nat, end: nat, bs: nat, c: Chunk)
    requires Slices(ch, from, to, end, bs)
    requires c.start == to && InBlock(c, bs)
    requires c.len == (if end - to > bs - c.offset then bs - c.offset else end - to)
    ensures Slices(ch + [c], from, to + c.len, end, bs)
    decreases |ch|
  {
    if ch != [] {
      SlicesSnoc(ch[1..], from + ch[0].len, to, end, bs, c);
      assert (ch + [c])[1..] == ch[1..] + [c];
    }
  }

  /** The slice one turn of `volume_read`'s loop serves extends the run. */
  lemma NextSlice(ch: seq<Chunk>, loc: nat, progress: nat, count: nat, bs: nat, block: nat, offset: nat, chunk: nat)
    requires Slices(ch, loc, loc + progress, loc + count, bs)
    requires block * bs + offset == loc + progress && offset < bs
    requires chunk > 0 && chunk == if count - progress > bs - offset then bs - offset else count - progress
    ensures Slices(ch + [Chunk(loc + progress, block, offset, chunk)], loc, loc + (progress + chunk), loc + count, bs)
  {
    SlicesSnoc(ch, loc, loc + progress, loc + count, bs, Chunk(loc + progress, block, offset, chunk));
  }

  /** The cache block that holds byte `x` of the volume. */
  function BlockIndex(v: Volume, x: nat): (b: nat)
    requires WellFormed(v)
    ensures b * BlockSize(v) <= x < (b + 1) * BlockSize(v)
  {
    x / BlockSize(v)
  }

  /** `cache_block` can fill block `b` from scratch: the volume is aligned,
      the sector arithmetic does not overflow and the retry loop reads
      something. */
  ghost predicate Cacheable(v: Volume, b: nat)
    requires WellFormed(v)
  {
    Aligned(v) && !BlockOverflows(v, b) && RetryFill(v.dev, BlockLba(v, b), v.fastestXferSize).Some?
  }

  /** On a device without transient failures, a block whose start lies
      before a byte on the device can be cached: its sector arithmetic stays
      within 64 bits once the image does, and its first sector is on the
      device. */
  lemma BlockCacheable(v: Volume, b: nat, x: nat)
    requires WellFormed(v) && Reliable(v.dev) && Aligned(v) && !v.dev.noMedia
    requires b * BlockSize(v) <= x && Origin(v) + x < |v.dev.image| <= U64_MAX
    ensures Cacheable(v, b)
  {
    var lba := BlockLba(v, b);
    BlockLbaBytes(v, b);
    DeviceBytes(v.dev);
    assert lba * v.sectorSize < DeviceSectors(v.dev) * v.sectorSize;
    MulMonoImp(DeviceSectors(v.dev), lba, v.sectorSize);
    MulMono(1, v.sectorSize, lba);
    MulMono(1, v.fastestXferSize, b);
  }

  /** A volume together with its cache buffer, `cache_status` and `cached_block`. */
  class CachedVolume {
    const vol: Volume
    const cache: array<byte>
    var ready: bool
    var cachedBlock: nat
    /** Sectors the last successful fill actually read. */
    ghost var filled: nat

    ghost predicate Valid()
      reads this, cache
    {
      WellFormed(vol) && cache.Length == BlockSize(vol) && (ready ==> CacheHolds())
    }

    /** The cache buffer holds the bytes the last fill of `cachedBlock` read. */
    ghost predicate CacheHolds()
      requires WellFormed(vol)
      reads this, cache
    {
      Aligned(vol) && !BlockOverflows(vol, cachedBlock) &&
      RetryFill(vol.dev, BlockLba(vol, cachedBlock), vol.fastestXferSize) == Some(filled) &&
      filled * vol.sectorSize <= cache.Length &&
      BlockLba(vol, cachedBlock) * vol.sectorSize + filled * vol.sectorSize <= |vol.dev.image| &&
      forall i :: 0 <= i < filled * vol.sectorSize ==>
        cache[i] == vol.dev.image[BlockLba(vol, cachedBlock) * vol.sectorSize + i]
    }

    /** A volume whose cache buffer is allocated but not ready. */
    constructor (v: Volume)
      requires WellFormed(v)
      ensures vol == v && !ready && Valid() && fresh(cache)
    {
      vol := v;
      cache := new byte[BlockSize(v)];
      ready := false;
      cachedBlock := 0;
      filled := 0;
    }

    /** `cache_block`: make `block` the cached block. */
    method CacheBlock(block: nat) returns (ok: bool)
      requires Valid()
      modifies this, cache
      ensures Valid()
      ensures old(ready) && block == old(cachedBlock) ==> ok && unchanged(this) && unchanged(cache)
      ensures ok ==> ready && cachedBlock == block
      ensures !ok ==> !ready
      ensures !(old(ready) && block == old(cachedBlock)) ==>
        (ok <==> Aligned(vol) && !BlockOverflows(vol, block) &&
                 RetryFill(vol.dev, BlockLba(vol, block), vol.fastestXferSize).Some?)
    {
      if ready && block == cachedBlock {
        return true;
      }
      ready := false;
      if !Aligned(vol) {
        return false;
      }
      if block * vol.fastestXferSize > U64_MAX || BlockLba(vol, block) > U64_MAX {
        return false;
      }
      var lba := BlockLba(vol, block);
      var xfer := vol.fastestXferSize;
      MulMono(xfer, vol.fastestXferSize, vol.sectorSize);
      while true
        invariant 1 <= xfer <= vol.fastestXferSize && !ready
        invariant xfer * vol.sectorSize <= cache.Length
        invariant RetryFill(vol.dev, lba, vol.fastestXferSize) == RetryFill(vol.dev, lba, xfer)
        decreases xfer
      {
        var st := DiskReadSectors(vol.dev, cache, lba, xfer);
        if st == DiskNoMedia {
          return false;
        }
        if st == DiskSuccess {
          break;
        }
        xfer := xfer - 1;
        if xfer == 0 {
          return false;
        }
        MulMono(xfer, xfer + 1, vol.sectorSize);
      }
      ready := true;
      cachedBlock := block;
      filled := xfer;
      return true;
    }

    /** Copy `n` bytes of the cache starting at `off` to `buf[at..]`. */
    method CopyOut(buf: array<byte>, at: nat, off: nat, n: nat)
      requires buf != cache && at + n <= buf.Length && off + n <= cache.Length
      modifies buf
      ensures forall i :: at <= i < at + n ==> buf[i] == cache[off + (i - at)]
      ensures forall i :: 0 <= i < buf.Length && !(at <= i < at + n) ==> buf[i] == old(buf[i])
    {
      var j := 0;
      while j < n
        invariant 0 <= j <= n
        invariant forall i :: at <= i < at + j ==> buf[i] == cache[off + (i - at)]
        invariant forall i :: 0 <= i < buf.Length && !(at <= i < at + j) ==> buf[i] == old(buf[i])
      {
        buf[at + j] := cache[off + j];
        j := j + 1;
      }
    }

    /** `volume_read`: copy bytes `[loc, loc + count)` of the volume into
        `buf`, one cache block at a time. On a device without transient
        failures every byte of the request that lies on the device is
        delivered; a request that `Read` serves always succeeds once the
        image fits the 64-bit sector arithmetic. */
    method VolumeRead(buf: array<byte>, loc: nat, count: nat) returns (ok: bool, ghost chunks: seq<Chunk>)
      requires Valid() && buf != cache && count <= buf.Length
      modifies this, cache, buf
      ensures Valid()
      ensures BoundsReject(vol, loc, count) ==> !ok
      ensures ok && count > 0 ==> Aligned(vol)
      ensures ok ==> Slices(chunks, loc, loc + count, loc + count, BlockSize(vol))
      ensures ok && Reliable(vol.dev) ==>
        forall i :: 0 <= i < count && Origin(vol) + loc + i < |vol.dev.image| ==>
          buf[i] == vol.dev.image[Origin(vol) + loc + i]
      ensures ok && Reliable(vol.dev) && Read(vol, loc, count).Some? ==>
        buf[..count] == Read(vol, loc, count).value
      ensures Reliable(vol.dev) && Read(vol, loc, count).Some? && |vol.dev.image| <= U64_MAX ==> ok
      ensures forall i :: count <= i < buf.Length ==> buf[i] == old(buf[i])
    {
      chunks := [];
      ReadBounds(vol, loc, count);
      if BoundsReject(vol, loc, count) {
        return false, chunks;
      }
      ok, chunks := CopyRange(buf, loc, count);
      if ok && Reliable(vol.dev) && Read(vol, loc, count).Some? && count > 0 {
        SliceEq(buf[..], vol.dev.image, Origin(vol) + loc, count);
      }
    }

    /** The loop of `volume_read`: one slice per turn until `count` bytes
        are copied or a block cannot be cached. */
    method CopyRange(buf: array<byte>, loc: nat, count: nat) returns (ok: bool, ghost chunks: seq<Chunk>)
      requires Valid() && buf != cache && count <= buf.Length
      modifies this, cache, buf
      ensures Valid()
      ensures ok && count > 0 ==> Aligned(vol)
      ensures ok ==> Slices(chunks, loc, loc + count, loc + count, BlockSize(vol))
      ensures ok && Reliable(vol.dev) ==>
        forall i :: 0 <= i < count && Origin(vol) + loc + i < |vol.dev.image| ==>
          buf[i] == vol.dev.image[Origin(vol) + loc + i]
      ensures Reliable(vol.dev) && Read(vol, loc, count).Some? && |vol.dev.image| <= U64_MAX ==> ok
      ensures forall i :: count <= i < buf.Length ==> buf[i] == old(buf[i])
    {
      chunks := [];
      var progress := 0;
      while progress < count
        invariant 0 <= progress <= count
        invariant Valid()
        invariant Slices(chunks, loc, loc + progress, loc + count, BlockSize(vol))
        invariant progress > 0 ==> Aligned(vol)
        invariant Reliable(vol.dev) ==>
          forall i :: 0 <= i < progress && Origin(vol) + loc + i < |vol.dev.image| ==>
            buf[i] == vol.dev.image[Origin(vol) + loc + i]
        invariant forall i :: count <= i < buf.Length ==> buf[i] == old(buf[i])
        decreases count - progress
      {
        var chunk;
        ok, chunk, chunks := ReadChunk(buf, loc, count, progress, chunks);
        if !ok {
          return false, chunks;
        }
        progress := progress + chunk;
      }
      return true, chunks;
    }

    /** One iteration of `volume_read`'s loop: cache the block holding byte
        `loc + progress` and copy the slice of it the request needs. It
        fails exactly when `cache_block` does. */
    method ReadChunk(buf: array<byte>, loc: nat, count: nat, progress: nat, ghost done: seq<Chunk>)
      returns (ok: bool, chunk: nat, ghost chunks: seq<Chunk>)
      requires Valid() && buf != cache && progress < count <= buf.Length
      requires Slices(done, loc, loc + progress, loc + count, BlockSize(vol))
      requires Reliable(vol.dev) ==>
        forall i :: 0 <= i < progress && Origin(vol) + loc + i < |vol.dev.image| ==>
          buf[i] == vol.dev.image[Origin(vol) + loc + i]
      modifies this, cache, buf
      ensures Valid()
      ensures ok <==> (old(ready) && old(cachedBlock) == BlockIndex(vol, loc + progress)) ||
                      Cacheable(vol, BlockIndex(vol, loc + progress))
      ensures ok ==> ready && cachedBlock == BlockIndex(vol, loc + progress)
      ensures progress + chunk <= count
      ensures ok ==> Aligned(vol) && chunk > 0
      ensures ok ==> Slices(chunks, loc, loc + (progress + chunk), loc + count, BlockSize(vol))
      ensures ok && Reliable(vol.dev) ==>
        forall i :: 0 <= i < progress + chunk && Origin(vol) + loc + i < |vol.dev.image| ==>
          buf[i] == vol.dev.image[Origin(vol) + loc + i]
      ensures Reliable(vol.dev) && Read(vol, loc, count).Some? && |vol.dev.image| <= U64_MAX ==> ok
      ensures forall i :: count <= i < buf.Length ==> buf[i] == old(buf[i])
    {
      var bs := BlockSize(vol);
      var block, offset;
      ok, block, offset := CacheFor(loc, count, progress);
      chunk, chunks := 0, done;
      if !ok {
        return;
      }
      chunk := count - progress;
      if chunk > bs - offset {
        chunk := bs - offset;
      }
      NextSlice(done, loc, progress, count, bs, block, offset, chunk);
      chunks := done + [Chunk(loc + progress, block, offset, chunk)];
      ServeChunk(buf, loc, count, progress, block, offset, chunk);
    }

    /** The first step of a turn: cache the block holding byte
        `loc + progress`, at `offset` within it. */
    method CacheFor(loc: nat, count: nat, progress: nat) returns (ok: bool, block: nat, offset: nat)
      requires Valid() && progress < count
      modifies this, cache
      ensures Valid()
      ensures block == BlockIndex(vol, loc + progress)
      ensures block * BlockSize(vol) + offset == loc + progress && offset < BlockSize(vol)
      ensures ok <==> (old(ready) && old(cachedBlock) == block) || Cacheable(vol, block)
      ensures ok ==> ready && cachedBlock == block && Aligned(vol)
      ensures Reliable(vol.dev) && Read(vol, loc, count).Some? && |vol.dev.image| <= U64_MAX ==> ok
    {
      block, offset := DivMod(loc + progress, BlockSize(vol));
      if Reliable(vol.dev) && Read(vol, loc, count).Some? && |vol.dev.image| <= U64_MAX {
        ReadBounds(vol, loc, count);
        BlockCacheable(vol, block, loc + progress);
      }
      ok := CacheBlock(block);
    }

    /** The copy of one slice out of the cached block: with the device bytes
        before it already in place, the device bytes up to its end are. */
    method ServeChunk(buf: array<byte>, loc: nat, count: nat, progress: nat, block: nat, offset: nat, chunk: nat)
      requires Valid() && ready && cachedBlock == block && buf != cache && progress + chunk <= count <= buf.Length
      requires block * BlockSize(vol) + offset == loc + progress && 0 < chunk && offset + chunk <= BlockSize(vol)
      requires Reliable(vol.dev) ==>
        forall i :: 0 <= i < progress && Origin(vol) + loc + i < |vol.dev.image| ==>
          buf[i] == vol.dev.image[Origin(vol) + loc + i]
      modifies buf
      ensures Reliable(vol.dev) ==>
        forall i :: 0 <= i < progress + chunk && Origin(vol) + loc + i < |vol.dev.image| ==>
          buf[i] == vol.dev.image[Origin(vol) + loc + i]
      ensures forall i :: count <= i < buf.Length ==> buf[i] == old(buf[i])
    {
      CopyOut(buf, progress, offset, chunk);
      if Reliable(vol.dev) {
        ChunkFromCache(block, offset, chunk, loc + progress);
        forall i | 0 <= i < progress + chunk && Origin(vol) + loc + i < |vol.dev.image|
          ensures buf[i] == vol.dev.image[Origin(vol) + loc + i]
        {
          if i >= progress {
            assert buf[i] == cache[offset + (i - progress)];
          }
        }
      }
    }

    /** On a device without transient failures the cached block holds the
        device bytes of every position of a slice that lies on the device:
        a fill shorter than the block stops only at the device's end. */
    lemma ChunkFromCache(block: nat, offset: nat, chunk: nat, at: nat)
      requires Valid() && ready && cachedBlock == block && Reliable(vol.dev)
      requires block * BlockSize(vol) + offset == at && offset + chunk <= BlockSize(vol)
      ensures forall j :: offset <= j < offset + chunk && Origin(vol) + at + (j - offset) < |vol.dev.image| ==>
        cache[j] == vol.dev.image[Origin(vol) + at + (j - offset)]
    {
      var ss := vol.sectorSize;
      var lba := BlockLba(vol, block);
      BlockLbaBytes(vol, block);
      DeviceBytes(vol.dev);
      assert lba + filled <= DeviceSectors(vol.dev);
      forall j | offset <= j < offset + chunk && Origin(vol) + at + (j - offset) < |vol.dev.image|
        ensures cache[j] == vol.dev.image[Origin(vol) + at + (j - offset)]
      {
        if filled != vol.fastestXferSize {
          assert lba + filled == DeviceSectors(vol.dev);
          assert (lba + filled) * ss == lba * ss + filled * ss;
        }
        assert j < filled * ss;
        assert cache[j] == vol.dev.image[lba * ss + j];
      }
    }
  }
}
