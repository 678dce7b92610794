/** The file allocation table: decoding one 12-, 16- or 32-bit entry
    (`read_cluster_from_map`), following a file's cluster chain into an array
    (`cache_cluster_chain`) and reading a byte range of a file through its
    chain (`read_cluster_chain`), limine/common/fs/fat32.s2.c:246-383. */
module FatTable {
  import opened Common
  import opened Volumes
  import opened FatContext

  /** Byte offset of the first FAT on the volume, and its size in bytes. */
  function FatBase(c: FatCtx): nat
  {
    c.fatStartLba * c.bytesPerSector
  }

  function FatSize(c: FatCtx): nat
  {
    c.sectorsPerFat * c.bytesPerSector
  }

  /** Where in the FAT the entry of `cluster` starts: one and a half bytes
      per entry for FAT12, two for FAT16, four for FAT32. */
  function EntryOffset(t: nat, cluster: nat): nat
  {
    if t == 12 then cluster + cluster / 2 else if t == 16 then cluster * 2 else cluster * 4
  }

  /** How many bytes are read for one entry. */
  function EntryWidth(t: nat): nat
  {
    if t == 32 then 4 else 2
  }

  /** The value of an entry from the bytes read for it: for FAT12 the low 12
      bits of the 16-bit word for an even cluster and its high 12 bits for an
      odd one; for FAT32 the low 28 bits. */
  function DecodeEntry(t: nat, cluster: nat, raw: seq<byte>): (r: nat)
    requires |raw| == EntryWidth(t)
    ensures t == 12 ==> r < 0x1000
    ensures t == 16 ==> r <= U16_MAX
    ensures r < 0x1000_0000
  {
    if t == 12 then (if cluster % 2 == 0 then LE16(raw, 0) % 0x1000 else LE16(raw, 0) / 16)
    else if t == 32 then LE32(raw, 0) % 0x1000_0000
    else LE16(raw, 0)
  }

  /** `read_cluster_from_map`: the entry of `cluster`, or None when the entry
      would extend past the end of the FAT or cannot be read. */
  function MapNext(c: FatCtx, cluster: nat): (r: Option<nat>)
    requires WellFormed(c.part)
    ensures r.Some? ==> EntryOffset(c.fatType, cluster) + EntryWidth(c.fatType) <= FatSize(c)
    ensures r.Some? ==> r.value < 0x1000_0000 && (c.fatType == 12 ==> r.value < 0x1000)
  {
    var off := EntryOffset(c.fatType, cluster);
    var w := EntryWidth(c.fatType);
    if off + w > FatSize(c) then None
    else
      match Read(c.part, FatBase(c) + off, w)
      case None => None
      case Some(raw) => Some(DecodeEntry(c.fatType, cluster, raw))
  }

  /** The table as the FAT specification lays it out, over the bytes `b` of
      the whole FAT: FAT12 packs the entries of clusters 2k and 2k+1 into
      the three bytes at 3k (the first gets the low nibble of the middle
      byte, the second its high nibble), FAT16 stores little-endian 16-bit
      words and FAT32 little-endian 32-bit words of which the top four bits
      are reserved. */
  function TableEntry(t: nat, b: seq<byte>, n: nat): (r: nat)
    requires (t == 12 || t == 16 || t == 32) && EntryOffset(t, n) + EntryWidth(t) <= |b|
  {
    if t == 12 then
      (var k := n / 2;
       if n % 2 == 0 then b[3 * k] as nat + 256 * (b[3 * k + 1] as nat % 16)
       else b[3 * k + 1] / 16 + 16 * b[3 * k + 2] as nat)
    else if t == 16 then b[2 * n] as nat + 256 * b[2 * n + 1] as nat
    else b[4 * n] as nat + 256 * b[4 * n + 1] as nat + 65536 * b[4 * n + 2] as nat +
         16777216 * (b[4 * n + 3] as nat % 16)
  }

  /** Two bytes at `off` of `b`, little-endian. */
  lemma LE16At(raw: seq<byte>, b: seq<byte>, off: nat)
    requires |raw| == 2 && off + 2 <= |b| && raw == b[off .. off + 2]
    ensures LE16(raw, 0) == b[off] as nat + 256 * b[off + 1] as nat
  {
    assert LE(raw, 0, 2) == raw[0] + 256 * LE(raw, 1, 1);
  }

  lemma LE32At(raw: seq<byte>, b: seq<byte>, off: nat)
    requires |raw| == 4 && off + 4 <= |b| && raw == b[off .. off + 4]
    ensures LE32(raw, 0) ==
      b[off] as nat + 256 * b[off + 1] as nat + 65536 * b[off + 2] as nat + 16777216 * b[off + 3] as nat
  {
    assert LE(raw, 0, 4) == raw[0] + 256 * (raw[1] + 256 * (raw[2] + 256 * LE(raw, 3, 1)));
  }

  /** The FAT12 word decoding picks out the packed 12-bit entry. */
  lemma Fat12Word(lo: byte, hi: byte, odd: bool)
    ensures !odd ==> (lo as nat + 256 * hi as nat) % 0x1000 == lo as nat + 256 * (hi as nat % 16)
    ensures odd ==> (lo as nat + 256 * hi as nat) / 16 == lo / 16 + 16 * hi as nat
  {
    var w: nat := lo as nat + 256 * hi as nat;
    if !odd {
      DivModOf(w, 0x1000, hi / 16, lo as nat + 256 * (hi as nat % 16));
    } else {
      DivModOf(w, 16, lo / 16 + 16 * hi as nat, lo % 16);
    }
  }

  lemma Fat32Mask(b0: byte, b1: byte, b2: byte, b3: byte)
    ensures (b0 as nat + 256 * b1 as nat + 65536 * b2 as nat + 16777216 * b3 as nat) % 0x1000_0000 ==
            b0 as nat + 256 * b1 as nat + 65536 * b2 as nat + 16777216 * (b3 as nat % 16)
  {
    var low: nat := b0 as nat + 256 * b1 as nat + 65536 * b2 as nat + 16777216 * (b3 as nat % 16);
    DivModOf(low + 0x1000_0000 * (b3 / 16), 0x1000_0000, b3 / 16, low);
  }

  /** The bytes `read_cluster_from_map` reads for cluster `n` are the ones
      at the entry's offset in the whole FAT. */
  lemma EntryBytes(c: FatCtx, n: nat)
    requires WellFormed(c.part) && (c.fatType == 12 || c.fatType == 16 || c.fatType == 32)
    requires Read(c.part, FatBase(c), FatSize(c)).Some?
    requires EntryOffset(c.fatType, n) + EntryWidth(c.fatType) <= FatSize(c)
    ensures var off := EntryOffset(c.fatType, n); var w := EntryWidth(c.fatType);
      Read(c.part, FatBase(c) + off, w) == Some(Read(c.part, FatBase(c), FatSize(c)).value[off .. off + w])
  {
    ReadSub(c.part, FatBase(c), FatSize(c), FatBase(c) + EntryOffset(c.fatType, n), EntryWidth(c.fatType));
  }

  /** Whenever the whole FAT can be read, `read_cluster_from_map` returns
      exactly the entry the on-disk layout assigns to the cluster, for every
      cluster whose entry lies inside the FAT. */
  lemma MapNextIsTableEntry(c: FatCtx, n: nat)
    requires WellFormed(c.part) && (c.fatType == 12 || c.fatType == 16 || c.fatType == 32)
    requires Read(c.part, FatBase(c), FatSize(c)).Some?
    requires EntryOffset(c.fatType, n) + EntryWidth(c.fatType) <= FatSize(c)
    ensures MapNext(c, n) == Some(TableEntry(c.fatType, Read(c.part, FatBase(c), FatSize(c)).value, n))
  {
    var t := c.fatType;
    var b := Read(c.part, FatBase(c), FatSize(c)).value;
    var off := EntryOffset(t, n);
    EntryBytes(c, n);
    var raw := b[off .. off + EntryWidth(t)];
    MapNextOf(c, n, raw);
    DecodeIsTableEntry(t, n, raw, b);
  }

  /** `read_cluster_from_map` decodes the bytes it reads for the entry. */
  lemma MapNextOf(c: FatCtx, n: nat, raw: seq<byte>)
    requires WellFormed(c.part) && EntryOffset(c.fatType, n) + EntryWidth(c.fatType) <= FatSize(c)
    requires Read(c.part, FatBase(c) + EntryOffset(c.fatType, n), EntryWidth(c.fatType)) == Some(raw)
    ensures MapNext(c, n) == Some(DecodeEntry(c.fatType, n, raw))
  {
  }

  /** The decoding of the bytes read for one entry agrees with the layout. */
  lemma DecodeIsTableEntry(t: nat, n: nat, raw: seq<byte>, b: seq<byte>)
    requires t == 12 || t == 16 || t == 32
    requires EntryOffset(t, n) + EntryWidth(t) <= |b|
    requires raw == b[EntryOffset(t, n) .. EntryOffset(t, n) + EntryWidth(t)]
    ensures DecodeEntry(t, n, raw) == TableEntry(t, b, n)
  {
    var off := EntryOffset(t, n);
    if t == 12 {
      LE16At(raw, b, off);
      Fat12Word(b[off], b[off + 1], n % 2 == 1);
      if n % 2 == 0 {
        assert off == 3 * (n / 2);
      } else {
        assert off == 3 * (n / 2) + 1;
      }
    } else if t == 16 {
      LE16At(raw, b, off);
    } else {
      LE32At(raw, b, off);
      Fat32Mask(b[off], b[off + 1], b[off + 2], b[off + 3]);
    }
  }

  // ---------------------------------------------------------------- chains

  /** The highest cluster number that `cache_cluster_chain` follows; larger
      values (end-of-chain and bad-cluster markers) end the chain. */
  function ClusterLimit(t: nat): nat
  {
    if t == 12 then 0xfef else if t == 16 then 0xffef else if t == 32 then 0xfffffef else 0
  }

  /** `FAT32_MAX_CHAIN_LENGTH`: 64 MiB worth of 32-bit entries. */
  const MAX_CHAIN_LENGTH: nat := 64 * 1024 * 1024 / 4

  /** The longest chain accepted: one less than the limit, capped. */
  function MaxClusters(t: nat): (r: nat)
    requires t == 12 || t == 16 || t == 32
    ensures t == 12 ==> r == 0xfee
    ensures t == 16 ==> r == 0xffee
    ensures t == 32 ==> r == MAX_CHAIN_LENGTH
  {
    if ClusterLimit(t) - 1 > MAX_CHAIN_LENGTH then MAX_CHAIN_LENGTH else ClusterLimit(t) - 1
  }

  /** A cluster number that denotes a data cluster. */
  predicate InRange(c: FatCtx, x: nat)
  {
    2 <= x <= ClusterLimit(c.fatType)
  }

  /** The table as a function from a cluster to its entry. */
  ghost function Table(c: FatCtx): nat -> Option<nat>
    requires ValidCtx(c)
  {
    (x: nat) => MapNext(c, x)
  }

  /** The complete chain of the file starting at `initial`: data clusters,
      each the table entry of the one before it, the last one's entry
      readable and ending the chain, no more of them than the cap. */
  ghost predicate IsChain(c: FatCtx, initial: nat, s: seq<nat>)
    requires ValidCtx(c)
  {
    Chain(Table(c), ClusterLimit(c.fatType), MaxClusters(c.fatType), initial, s)
  }

  /** `s` is a walk through the table `next`: cluster numbers between 2 and
      `limit`, each the entry of the one before it. */
  ghost predicate Walk(next: nat -> Option<nat>, limit: nat, s: seq<nat>)
  {
    |s| > 0 &&
    (forall i :: 0 <= i < |s| ==> 2 <= s[i] <= limit) &&
    (forall i :: 0 < i < |s| ==> Linked(next, s, i))
  }

  /** Cluster `i` of `s` is the entry of the one before it. */
  ghost predicate Linked(next: nat -> Option<nat>, s: seq<nat>, i: nat)
    requires 0 < i < |s|
  {
    next(s[i - 1]) == Some(s[i])
  }

  /** A walk from `initial`, at most `max` long, whose last entry can be
      read and is not a cluster number between 2 and `limit`. */
  ghost predicate Chain(next: nat -> Option<nat>, limit: nat, max: nat, initial: nat, s: seq<nat>)
  {
    Walk(next, limit, s) && s[0] == initial && |s| <= max &&
    next(s[|s| - 1]).Some? && !(2 <= next(s[|s| - 1]).value <= limit)
  }

  /** One link of a walk. */
  lemma WalkStep(next: nat -> Option<nat>, limit: nat, w: seq<nat>, i: nat)
    requires Walk(next, limit, w) && 0 < i < |w|
    ensures next(w[i - 1]) == Some(w[i]) && 2 <= w[i] <= limit
  {
    assert Linked(next, w, i);
  }

  /** Every cluster of a chain has a readable entry, and the entry of each
      but the last is the next cluster. */
  lemma ChainEntry(c: FatCtx, initial: nat, s: seq<nat>, i: nat)
    requires ValidCtx(c) && IsChain(c, initial, s) && i < |s|
    ensures MapNext(c, s[i]).Some?
    ensures i + 1 < |s| ==> MapNext(c, s[i]) == Some(s[i + 1])
  {
    var next := Table(c);
    if i + 1 < |s| {
      WalkStep(next, ClusterLimit(c.fatType), s, i + 1);
      assert next(s[i]) == MapNext(c, s[i]);
    } else {
      assert next(s[|s| - 1]) == MapNext(c, s[i]);
    }
  }

  /** Two walks from the same cluster agree as far as both go. */
  lemma {:induction false} WalksAgree(next: nat -> Option<nat>, limit: nat, s: seq<nat>, w: seq<nat>, i: nat)
    requires Walk(next, limit, s) && Walk(next, limit, w) && s[0] == w[0]
    requires i < |s| && i < |w|
    ensures s[i] == w[i]
  {
    if i > 0 {
      WalksAgree(next, limit, s, w, i - 1);
      WalkStep(next, limit, s, i);
      WalkStep(next, limit, w, i);
    }
  }

  /** Every walk from the first cluster of a chain is at most as long as
      the chain. */
  lemma WalkWithinChain(next: nat -> Option<nat>, limit: nat, max: nat, initial: nat, s: seq<nat>, w: seq<nat>)
    requires Chain(next, limit, max, initial, s) && Walk(next, limit, w) && w[0] == initial
    ensures |w| <= |s|
  {
    if |s| < |w| {
      WalksAgree(next, limit, s, w, |s| - 1);
      WalkStep(next, limit, w, |s|);
      assert false;
    }
  }

  /** A file has at most one chain. */
  lemma ChainUnique(c: FatCtx, initial: nat, s: seq<nat>, w: seq<nat>)
    requires ValidCtx(c) && IsChain(c, initial, s) && IsChain(c, initial, w)
    ensures s == w
  {
    var next, limit, max := Table(c), ClusterLimit(c.fatType), MaxClusters(c.fatType);
    WalkWithinChain(next, limit, max, initial, s, w);
    WalkWithinChain(next, limit, max, initial, w, s);
    forall i | 0 <= i < |s|
      ensures s[i] == w[i]
    {
      WalksAgree(next, limit, s, w, i);
    }
  }

  /** A walk that outgrows the cap, or that reaches an entry that cannot be
      read, leaves no chain for its first cluster. */
  lemma NoChain(next: nat -> Option<nat>, limit: nat, max: nat, w: seq<nat>)
    requires Walk(next, limit, w)
    requires |w| > max || next(w[|w| - 1]).None?
    ensures forall s :: !Chain(next, limit, max, w[0], s)
  {
    forall s | Chain(next, limit, max, w[0], s)
      ensures false
    {
      WalkWithinChain(next, limit, max, w[0], s, w);
      if |w| <= max {
        WalksAgree(next, limit, s, w, |w| - 1);
        if |s| > |w| {
          WalkStep(next, limit, s, |w|);
        }
      }
    }
  }

  /** A walk extended by the entry of its last cluster. */
  lemma WalkSnoc(next: nat -> Option<nat>, limit: nat, w: seq<nat>, x: nat)
    requires Walk(next, limit, w) && next(w[|w| - 1]) == Some(x) && 2 <= x <= limit
    ensures Walk(next, limit, w + [x])
  {
    var w' := w + [x];
    forall i | 0 < i < |w'|
      ensures Linked(next, w', i)
    {
      if i < |w| {
        WalkStep(next, limit, w, i);
      }
    }
  }

  /** `cache_cluster_chain`: the chain of the file whose first cluster is
      `initial`, counted in a first pass and stored in an array in a second;
      None when `initial` is not a data cluster, when an entry cannot be
      read or when the chain exceeds the cap (a cycle or a corrupt table). */
  method CacheClusterChain(c: FatCtx, initial: nat) returns (r: Option<seq<nat>>)
    requires ValidCtx(c)
    ensures !InRange(c, initial) ==> r.None?
    ensures r.Some? ==> IsChain(c, initial, r.value)
    ensures InRange(c, initial) && r.None? ==> forall s :: !IsChain(c, initial, s)
  {
    if !InRange(c, initial) {
      return None;
    }
    var len, walk := ChainLength(c, initial);
    if len.None? {
      return None;
    }
    var chain := StoreChain(c, initial, len.value, walk);
    r := Some(chain);
  }

  /** The first pass: counts the clusters of the chain, giving up when an
      entry cannot be read or when the count passes the cap. */
  method ChainLength(c: FatCtx, initial: nat) returns (r: Option<nat>, ghost walk: seq<nat>)
    requires ValidCtx(c) && InRange(c, initial)
    ensures r.Some? ==> IsChain(c, initial, walk) && |walk| == r.value
    ensures r.None? ==> forall s :: !IsChain(c, initial, s)
  {
    var max := MaxClusters(c.fatType);
    var cluster := initial;
    var len := 1;
    walk := [initial];
    while len <= max
      invariant 1 <= len <= max + 1
      invariant |walk| == len && Walk(Table(c), ClusterLimit(c.fatType), walk)
      invariant walk[0] == initial && cluster == walk[len - 1]
      decreases max + 1 - len
    {
      var done;
      done, r, walk, cluster := ChainTurn(c, initial, walk, cluster, len);
      if done {
        return;
      }
      len := len + 1;
    }
    NoChainOf(c, initial, walk);
    r := None;
  }

  /** One turn of the counting loop: the entry of the last cluster ends the
      count when it cannot be read or is not a cluster number, and extends
      the walk otherwise. */
  method ChainTurn(c: FatCtx, initial: nat, ghost walk: seq<nat>, cluster: nat, len: nat)
    returns (done: bool, r: Option<nat>, ghost walk': seq<nat>, cluster': nat)
    requires ValidCtx(c) && Walk(Table(c), ClusterLimit(c.fatType), walk) && walk[0] == initial
    requires len == |walk| <= MaxClusters(c.fatType) && cluster == walk[len - 1]
    ensures done && r.Some? ==> IsChain(c, initial, walk') && |walk'| == r.value
    ensures done && r.None? ==> forall s :: !IsChain(c, initial, s)
    ensures !done ==> Walk(Table(c), ClusterLimit(c.fatType), walk') && |walk'| == len + 1
    ensures !done ==> walk'[0] == initial && cluster' == walk'[len]
  {
    var entry := MapNext(c, cluster);
    assert Table(c)(walk[len - 1]) == entry;
    if entry.None? {
      NoChainOf(c, initial, walk);
      return true, None, walk, cluster;
    }
    if !InRange(c, entry.value) {
      return true, Some(len), walk, cluster;
    }
    WalkSnoc(Table(c), ClusterLimit(c.fatType), walk, entry.value);
    return false, None, walk + [entry.value], entry.value;
  }

  /** A walk from `initial` that runs past the cluster limit or reaches an
      entry that cannot be read rules out every chain from `initial`. */
  lemma NoChainOf(c: FatCtx, initial: nat, w: seq<nat>)
    requires ValidCtx(c) && Walk(Table(c), ClusterLimit(c.fatType), w) && w[0] == initial
    requires |w| > MaxClusters(c.fatType) || Table(c)(w[|w| - 1]).None?
    ensures forall s :: !IsChain(c, initial, s)
  {
    NoChain(Table(c), ClusterLimit(c.fatType), MaxClusters(c.fatType), w);
  }

  /** The second pass: stores the clusters of a chain already counted,
      re-reading each entry. */
  method StoreChain(c: FatCtx, initial: nat, len: nat, ghost walk: seq<nat>) returns (chain: seq<nat>)
    requires ValidCtx(c) && IsChain(c, initial, walk) && |walk| == len
    ensures chain == walk
  {
    var a := new nat[len];
    var cluster := initial;
    var i := 0;
    while i < len
      invariant 0 <= i <= len
      invariant forall k :: 0 <= k < i ==> a[k] == walk[k]
      invariant i < len ==> cluster == walk[i]
    {
      a[i] := cluster;
      cluster := ChainSuccessor(c, initial, walk, i, cluster);
      i := i + 1;
    }
    assert a[..] == walk;
    chain := a[..];
  }

  /** The table entry of the `i`-th cluster of a chain, which is the next
      cluster of the chain when there is one. */
  method ChainSuccessor(c: FatCtx, initial: nat, ghost walk: seq<nat>, i: nat, cluster: nat) returns (next: nat)
    requires ValidCtx(c) && IsChain(c, initial, walk) && i < |walk| && cluster == walk[i]
    ensures i + 1 < |walk| ==> next == walk[i + 1]
  {
    ChainEntry(c, initial, walk, i);
    next := MapNext(c, cluster).value;
  }

  // ---------------------------------------------------------------- reads

  /** Byte offset on the volume of the first byte of data cluster `cluster`. */
  function ClusterBase(c: FatCtx, cluster: nat): nat
    requires cluster >= 2
  {
    (c.dataStartLba + (cluster - 2) * c.sectorsPerCluster) * c.bytesPerSector
  }

  /** Where byte `x` of the file with cluster chain `chain` lies on the
      volume: in the cluster its block number selects, at its offset within
      the block; None when the block is past the chain or the chain holds a
      cluster number below 2 there. */
  function FileByteLoc(c: FatCtx, chain: seq<nat>, x: nat): Option<nat>
    requires Readable(c)
  {
    var bs := ClusterBytes(c);
    if x / bs >= |chain| then None
    else if chain[x / bs] < 2 then None
    else Some(ClusterBase(c, chain[x / bs]) + x % bs)
  }

  /** Every byte of `[loc, loc + count)` of the file has a location and can be read there. */
  ghost predicate FileRangeReadable(c: FatCtx, chain: seq<nat>, loc: nat, count: nat)
    requires Readable(c)
  {
    forall x :: loc <= x < loc + count ==>
      FileByteLoc(c, chain, x).Some? && ByteAt(c.part, FileByteLoc(c, chain, x).value).Some?
  }

  /** Euclidean division is determined by its two defining facts. */
  lemma DivModOf(x: nat, d: nat, q: nat, m: nat)
    requires d > 0 && x == q * d + m && m < d
    ensures x / d == q && x % d == m
  {
    var q' := x / d;
    assert x == q' * d + x % d && x % d < d;
    MulMonoImp(q + 1, q', d);
    MulMonoImp(q' + 1, q, d);
    assert (q + 1) * d == q * d + d && (q' + 1) * d == q' * d + d;
  }

  /** A byte whose block is past the chain, or whose block's cluster number
      is below 2, has no location. */
  lemma NoLocation(c: FatCtx, chain: seq<nat>, x: nat, block: nat, offset: nat)
    requires Readable(c) && block * ClusterBytes(c) + offset == x && offset < ClusterBytes(c)
    requires block >= |chain| || chain[block] < 2
    ensures FileByteLoc(c, chain, x).None?
  {
    DivModOf(x, ClusterBytes(c), block, offset);
  }

  /** The `n` bytes of the file from `x` on, inside block `block` from
      `offset` on, are the `n` bytes of the volume from the matching offset
      of that block's cluster: one read fetches them exactly when each can
      be read. */
  lemma ChunkRead(c: FatCtx, chain: seq<nat>, x: nat, block: nat, offset: nat, n: nat)
    requires Readable(c) && block * ClusterBytes(c) + offset == x
    requires block < |chain| && chain[block] >= 2 && 0 < n && offset + n <= ClusterBytes(c)
    ensures var at := ClusterBase(c, chain[block]) + offset;
      (Read(c.part, at, n).Some? <==> FileRangeReadable(c, chain, x, n)) &&
      (Read(c.part, at, n).Some? ==> forall y :: x <= y < x + n ==>
         ByteAt(c.part, FileByteLoc(c, chain, y).value) == Some(Read(c.part, at, n).value[y - x]))
  {
    var at := ClusterBase(c, chain[block]) + offset;
    forall y | x <= y < x + n
      ensures FileByteLoc(c, chain, y) == Some(at + (y - x))
    {
      DivModOf(y, ClusterBytes(c), block, offset + (y - x));
    }
    ReadBytewise(c.part, at, n);
    if Read(c.part, at, n).None? {
      var z :| at <= z < at + n && ByteAt(c.part, z).None?;
      assert FileByteLoc(c, chain, x + (z - at)) == Some(z);
    } else {
      forall y | x <= y < x + n
        ensures ByteAt(c.part, FileByteLoc(c, chain, y).value) == Some(Read(c.part, at, n).value[y - x])
      {
        assert FileByteLoc(c, chain, y) == Some(at + (y - x));
      }
    }
  }

  /** Readability of a range is readability of its two halves. */
  lemma ReadableSplit(c: FatCtx, chain: seq<nat>, loc: nat, p: nat, n: nat)
    requires Readable(c)
    ensures FileRangeReadable(c, chain, loc, p + n) <==>
      FileRangeReadable(c, chain, loc, p) && FileRangeReadable(c, chain, loc + p, n)
  {
  }

  /** `read_cluster_chain`: copies bytes `[loc, loc + count)` of the file
      into `buf`, one chunk per cluster, each chunk ending at the end of its
      cluster or of the request. It succeeds exactly when every byte of the
      range has a location and can be read, and then `buf` holds them. */
  method ReadClusterChain(c: FatCtx, chain: seq<nat>, buf: array<byte>, loc: nat, count: nat) returns (ok: bool)
    requires Readable(c) && count <= buf.Length
    modifies buf
    ensures ok <==> FileRangeReadable(c, chain, loc, count)
    ensures ok ==> forall i :: 0 <= i < count ==>
      buf[i] == ByteAt(c.part, FileByteLoc(c, chain, loc + i).value).value
    ensures forall i :: count <= i < buf.Length ==> buf[i] == old(buf[i])
  {
    var progress := 0;
    while progress < count
      invariant progress <= count
      invariant FileRangeReadable(c, chain, loc, progress)
      invariant forall i :: 0 <= i < progress ==>
        buf[i] == ByteAt(c.part, FileByteLoc(c, chain, loc + i).value).value
      invariant forall i :: count <= i < buf.Length ==> buf[i] == old(buf[i])
      decreases count - progress
    {
      var step, chunk := ReadChunk(c, chain, buf, loc, count, progress);
      ReadableSplit(c, chain, loc, progress, count - progress);
      if !step {
        return false;
      }
      ReadableSplit(c, chain, loc, progress, chunk);
      progress := progress + chunk;
    }
    ok := true;
  }

  /** One iteration of `read_cluster_chain`: the chunk from `loc + progress`
      to the end of its cluster or of the request, read into `buf` at
      `progress`. It fails, leaving `buf` as it was, exactly when some byte
      from `loc + progress` to the end of the request cannot be read, first
      trying the bytes of this chunk. */
  method ReadChunk(c: FatCtx, chain: seq<nat>, buf: array<byte>, loc: nat, count: nat, progress: nat)
    returns (ok: bool, chunk: nat)
    requires Readable(c) && progress < count <= buf.Length
    modifies buf
    ensures ok ==> 0 < chunk <= count - progress && FileRangeReadable(c, chain, loc + progress, chunk)
    ensures ok ==> forall i :: progress <= i < progress + chunk ==>
      buf[i] == ByteAt(c.part, FileByteLoc(c, chain, loc + i).value).value
    ensures !ok ==> chunk == 0 && !FileRangeReadable(c, chain, loc + progress, count - progress)
    ensures forall i :: 0 <= i < buf.Length && !(progress <= i < progress + chunk) ==> buf[i] == old(buf[i])
  {
    var bs := ClusterBytes(c);
    var block, offset := DivMod(loc + progress, bs);
    if block >= |chain| || chain[block] < 2 {
      NoLocation(c, chain, loc + progress, block, offset);
      return false, 0;
    }
    chunk := count - progress;
    if chunk > bs - offset {
      chunk := bs - offset;
    }
    var data := Read(c.part, ClusterBase(c, chain[block]) + offset, chunk);
    ChunkRead(c, chain, loc + progress, block, offset, chunk);
    if data.None? {
      ReadableSplit(c, chain, loc + progress, chunk, count - progress - chunk);
      return false, 0;
    }
    CopyChunk(buf, data.value, progress);
    ChunkPlaced(c, chain, buf, data.value, loc, progress, block, offset);
    ok := true;
  }

  /** The bytes of a chunk read from its cluster and copied to `buf` at
      `progress` are the file's bytes from `loc + progress` on. */
  lemma ChunkPlaced(c: FatCtx, chain: seq<nat>, buf: array<byte>, data: seq<byte>, loc: nat, progress: nat, block: nat, offset: nat)
    requires Readable(c) && block * ClusterBytes(c) + offset == loc + progress
    requires block < |chain| && chain[block] >= 2 && 0 < |data| && offset + |data| <= ClusterBytes(c)
    requires Read(c.part, ClusterBase(c, chain[block]) + offset, |data|) == Some(data)
    requires progress + |data| <= buf.Length
    requires forall i :: progress <= i < progress + |data| ==> buf[i] == data[i - progress]
    ensures forall i :: progress <= i < progress + |data| ==>
      FileByteLoc(c, chain, loc + i).Some? && ByteAt(c.part, FileByteLoc(c, chain, loc + i).value) == Some(buf[i])
  {
    ChunkRead(c, chain, loc + progress, block, offset, |data|);
    forall i | progress <= i < progress + |data|
      ensures FileByteLoc(c, chain, loc + i).Some? && ByteAt(c.part, FileByteLoc(c, chain, loc + i).value) == Some(buf[i])
    {
      assert buf[i] == data[i - progress];
      assert ByteAt(c.part, FileByteLoc(c, chain, loc + i).value) == Some(data[loc + i - (loc + progress)]);
    }
  }
}
