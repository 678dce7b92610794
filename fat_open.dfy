/** Opening files on a FAT volume (limine/common/fs/fat32.s2.c:425-714):
    loading a directory into memory, `fat32_open_in`, the label lookup of
    `fat32_init_context`, the path walk of `fat32_open` and `fat32_read`. */
module FatOpen {
  import opened Common
  import opened Volumes
  import opened FatContext
  import opened FatTable
  import opened FatNames
  import opened FatDir

  /** Directories larger than 256 MiB are refused. */
  const MAX_DIRECTORY_BYTES: nat := 256 * 1024 * 1024

  /** A directory to search: the entry of a subdirectory, or None for the
      fixed root region of FAT12 and FAT16. */
  predicate DirOk(dir: Option<seq<byte>>)
  {
    dir.Some? ==> |dir.value| == ENTRY_SIZE
  }

  /** The first cluster recorded in a directory entry: the low half, and on
      FAT32 the high half shifted by 16. */
  function FirstCluster(fatType: nat, e: seq<byte>): (r: nat)
    requires |e| == ENTRY_SIZE
    ensures r <= U32_MAX
  {
    LE16(e, 26) + (if fatType == 32 then LE16(e, 20) * 0x1_0000 else 0)
  }

  /** The entry `fat32_init_context` and `fat32_open` make up for the FAT32
      root directory: only its two cluster fields are set. */
  function RootEntry(cluster: nat): (e: seq<byte>)
    requires cluster <= U32_MAX
    ensures |e| == ENTRY_SIZE
  {
    var low := cluster % 0x1_0000;
    var high := cluster / 0x1_0000;
    seq(ENTRY_SIZE, k requires 0 <= k < ENTRY_SIZE =>
      if k == 26 then low % 256 else if k == 27 then low / 256
      else if k == 20 then high % 256 else if k == 21 then high / 256
      else 0)
  }

  /** The made-up root entry leads back to the root cluster. */
  lemma RootEntryCluster(cluster: nat)
    requires cluster <= U32_MAX
    ensures FirstCluster(32, RootEntry(cluster)) == cluster
  {
    var e := RootEntry(cluster);
    assert LE16(e, 26) == e[26] as nat + 256 * e[27] as nat;
    assert LE16(e, 20) == e[20] as nat + 256 * e[21] as nat;
  }

  /** Where the search of a path starts. */
  function RootDir(c: FatCtx): (r: Option<seq<byte>>)
    requires ValidCtx(c)
    ensures DirOk(r)
  {
    if c.fatType == 32 then Some(RootEntry(c.rootDirectoryCluster)) else None
  }

  // -------------------------------------------------------- directory images

  /** The cluster chain from `initial`, when there is one; it is unique. */
  ghost function ChainOf(c: FatCtx, initial: nat): (r: Option<seq<nat>>)
    requires ValidCtx(c)
    ensures r.Some? ==> IsChain(c, initial, r.value)
    ensures r.None? ==> forall s :: !IsChain(c, initial, s)
  {
    if exists s :: IsChain(c, initial, s) then
      var s :| IsChain(c, initial, s);
      Some(s)
    else None
  }

  lemma ChainOfIs(c: FatCtx, initial: nat, s: seq<nat>)
    requires ValidCtx(c) && IsChain(c, initial, s)
    ensures ChainOf(c, initial) == Some(s)
  {
    ChainUnique(c, initial, s, ChainOf(c, initial).value);
  }

  /** A chain starts at a cluster number in range. */
  lemma ChainStartsInRange(c: FatCtx, initial: nat)
    requires ValidCtx(c) && !InRange(c, initial)
    ensures ChainOf(c, initial).None?
  {
  }

  /** `cache_cluster_chain` yields the chain from `initial` when there is one. */
  method ChainFrom(c: FatCtx, initial: nat) returns (r: Option<seq<nat>>)
    requires ValidCtx(c)
    ensures r == ChainOf(c, initial)
  {
    r := CacheClusterChain(c, initial);
    if r.Some? {
      ChainOfIs(c, initial, r.value);
    } else if !InRange(c, initial) {
      ChainStartsInRange(c, initial);
    }
  }

  /** The bytes of the first `count` bytes of a file with the given chain. */
  ghost function FileBytes(c: FatCtx, chain: seq<nat>, count: nat): (r: seq<byte>)
    requires Readable(c) && FileRangeReadable(c, chain, 0, count)
    ensures |r| == count
  {
    seq(count, x requires 0 <= x < count => ByteAt(c.part, FileByteLoc(c, chain, x).value).value)
  }

  /** A subdirectory in memory: all the clusters of its chain, refused when
      there is no chain, when it is over 256 MiB or when a byte cannot be read. */
  ghost function ChainImage(c: FatCtx, cluster: nat): (r: Option<seq<byte>>)
    requires ValidCtx(c)
  {
    ClusterBytesBounds(c);
    match ChainOf(c, cluster)
    case None => None
    case Some(chain) => ChainBytes(c, chain)
  }

  /** All the clusters of a chain in memory, refused over 256 MiB or when a
      byte cannot be read. */
  ghost function ChainBytes(c: FatCtx, chain: seq<nat>): (r: Option<seq<byte>>)
    requires Readable(c)
  {
    var alloc := |chain| * ClusterBytes(c);
    if alloc > MAX_DIRECTORY_BYTES || !FileRangeReadable(c, chain, 0, alloc) then None
    else Some(FileBytes(c, chain, alloc))
  }

  lemma RoundUpCovers(x: nat, a: nat)
    requires a > 0
    ensures DivRoundUp(x, a) * a >= x
  {
    var q := (x + a - 1) / a;
    assert x + a - 1 == q * a + (x + a - 1) % a;
  }

  /** The number of bytes the root region of FAT12 and FAT16 occupies in
      memory: its entries rounded up to whole clusters. */
  function RootAlloc(c: FatCtx): (r: nat)
    requires Readable(c)
    ensures r >= c.rootEntries * ENTRY_SIZE
  {
    RoundUpCovers(c.rootEntries * ENTRY_SIZE, ClusterBytes(c));
    DivRoundUp(c.rootEntries * ENTRY_SIZE, ClusterBytes(c)) * ClusterBytes(c)
  }

  /** The byte offset of the fixed root region in the partition. */
  function RootOffset(c: FatCtx): nat
  {
    c.rootStart * c.bytesPerSector
  }

  /** The root region in memory: its entries read from `root_start`,
      followed by zeros up to a whole number of clusters. */
  function RootImage(c: FatCtx): (r: Option<seq<byte>>)
    requires Readable(c)
  {
    var alloc := RootAlloc(c);
    if alloc > MAX_DIRECTORY_BYTES then None
    else
      match Read(c.part, RootOffset(c), c.rootEntries * ENTRY_SIZE)
      case None => None
      case Some(b) => Some(b + Fill(alloc - |b|, 0))
  }

  /** The directory `fat32_open_in` searches, as loaded into memory. */
  ghost function DirectoryImage(c: FatCtx, dir: Option<seq<byte>>): Option<seq<byte>>
    requires ValidCtx(c) && DirOk(dir)
  {
    ClusterBytesBounds(c);
    match dir
    case Some(e) => ChainImage(c, FirstCluster(c.fatType, e))
    case None => RootImage(c)
  }

  /** A loaded directory is at most 256 MiB and a whole number of clusters. */
  lemma DirectoryImageShape(c: FatCtx, dir: Option<seq<byte>>)
    requires ValidCtx(c) && DirOk(dir) && DirectoryImage(c, dir).Some?
    ensures ClusterBytes(c) > 0
    ensures var b := DirectoryImage(c, dir).value;
      |b| <= MAX_DIRECTORY_BYTES && |b| % ClusterBytes(c) == 0
  {
    ClusterBytesBounds(c);
    if dir.None? {
      var cb := ClusterBytes(c);
      var q := DivRoundUp(c.rootEntries * ENTRY_SIZE, cb);
      assert RootAlloc(c) == q * cb;
      DivModOf(q * cb, cb, q, 0);
    } else {
      var chain := ChainOf(c, FirstCluster(c.fatType, dir.value)).value;
      DivModOf(|chain| * ClusterBytes(c), ClusterBytes(c), |chain|, 0);
    }
  }

  /** A loaded subdirectory is the clusters of its chain, byte for byte. */
  lemma SubdirectoryImage(c: FatCtx, e: seq<byte>)
    requires ValidCtx(c) && DirOk(Some(e)) && DirectoryImage(c, Some(e)).Some?
    ensures ChainOf(c, FirstCluster(c.fatType, e)).Some?
    ensures var b := DirectoryImage(c, Some(e)).value;
      var chain := ChainOf(c, FirstCluster(c.fatType, e)).value;
      |b| == |chain| * ClusterBytes(c) &&
      forall x :: 0 <= x < |b| ==> FileByteLoc(c, chain, x).Some? && Some(b[x]) == ByteAt(c.part, FileByteLoc(c, chain, x).value)
  {
  }

  /** The loaded fixed root is the root area read from the disk, then zeros. */
  lemma RootDirectoryImage(c: FatCtx)
    requires ValidCtx(c) && DirOk(None) && DirectoryImage(c, None).Some?
    ensures var n, b := c.rootEntries * ENTRY_SIZE, DirectoryImage(c, None).value;
      var raw := Read(c.part, RootOffset(c), n);
      raw.Some? && n <= |b| && b[..n] == raw.value && forall x :: n <= x < |b| ==> b[x] == 0
  {
  }

  /** `fat32_open_in`: the directory is loaded, then scanned. */
  ghost function OpenInSpec(c: FatCtx, dir: Option<seq<byte>>, name: Option<seq<byte>>, ci: bool): (r: Option<seq<byte>>)
    requires ValidCtx(c) && DirOk(dir)
    ensures name.Some? ==> DirOk(r)
  {
    match DirectoryImage(c, dir)
    case None => None
    case Some(b) => DirScan(b, name, ci)
  }

  /** Loading a subdirectory through its cluster chain. */
  method LoadChain(c: FatCtx, cluster: nat) returns (r: Option<seq<byte>>)
    requires ValidCtx(c)
    ensures r == ChainImage(c, cluster)
  {
    ClusterBytesBounds(c);
    var chain := ChainFrom(c, cluster);
    if chain.None? {
      return None;
    }
    r := ReadChainBytes(c, chain.value);
  }

  /** Reading a whole chain into a zeroed buffer. */
  method ReadChainBytes(c: FatCtx, chain: seq<nat>) returns (r: Option<seq<byte>>)
    requires Readable(c)
    ensures r == ChainBytes(c, chain)
  {
    var alloc := |chain| * (c.sectorsPerCluster * c.bytesPerSector);
    if alloc > MAX_DIRECTORY_BYTES {
      return None;
    }
    var buf := new byte[alloc](_ => 0);
    var ok := ReadClusterChain(c, chain, buf, 0, alloc);
    if !ok {
      return None;
    }
    assert buf[..] == FileBytes(c, chain, alloc);
    return Some(buf[..]);
  }

  /** Loading the root region of FAT12 and FAT16 into a zeroed buffer. */
  method LoadRoot(c: FatCtx) returns (r: Option<seq<byte>>)
    requires Readable(c)
    ensures r == RootImage(c)
  {
    var blockSize := c.sectorsPerCluster * c.bytesPerSector;
    var chainLen := (c.rootEntries * ENTRY_SIZE + blockSize - 1) / blockSize;
    var alloc := chainLen * blockSize;
    assert alloc == RootAlloc(c);
    if alloc > MAX_DIRECTORY_BYTES {
      return None;
    }
    var buf := new byte[alloc](_ => 0);
    var data := Read(c.part, RootOffset(c), c.rootEntries * ENTRY_SIZE);
    if data.None? {
      return None;
    }
    CopyChunk(buf, data.value, 0);
    assert buf[..] == data.value + Fill(alloc - |data.value|, 0);
    return Some(buf[..]);
  }

  /** `fat32_open_in` on directory `dir`: the label when `name` is absent,
      otherwise the entry the name designates. */
  method OpenIn(c: FatCtx, dir: Option<seq<byte>>, name: Option<seq<byte>>, ci: bool) returns (r: Option<seq<byte>>)
    requires ValidCtx(c) && DirOk(dir) && (name.Some? ==> NulFree(name.value))
    ensures r == OpenInSpec(c, dir, name, ci)
  {
    ClusterBytesBounds(c);
    var image: Option<seq<byte>>;
    if dir.Some? {
      image := LoadChain(c, FirstCluster(c.fatType, dir.value));
    } else {
      image := LoadRoot(c);
    }
    if image.None? {
      return None;
    }
    r := ScanDirectory(image.value, name, ci);
  }

  // ------------------------------------------------------------ the context

  /** `fat32_init_context`: the parsed context, with the label of the root
      directory when it has one. */
  ghost function ContextWithLabel(v: Volume): (r: Option<FatCtx>)
    requires WellFormed(v)
    ensures r.Some? ==> ValidCtx(r.value) && r.value.part == v
  {
    match ParseContext(v)
    case None => None
    case Some(c) => Some(c.(volLabel := OpenInSpec(c, RootDir(c), None, false)))
  }

  /** `fat32_init_context`: a missing label does not make it fail. */
  method InitContext(v: Volume) returns (r: Option<FatCtx>)
    requires WellFormed(v)
    ensures r == ContextWithLabel(v)
  {
    var c := ParseContext(v);
    if c.None? {
      return None;
    }
    var lbl := OpenIn(c.value, RootDir(c.value), None, false);
    return Some(c.value.(volLabel := lbl));
  }

  /** The label found is that of a volume-label entry of the root directory. */
  lemma ContextLabel(c: FatCtx, text: seq<byte>) returns (k: nat)
    requires ValidCtx(c) && OpenInSpec(c, RootDir(c), None, false) == Some(text)
    ensures DirectoryImage(c, RootDir(c)).Some?
    ensures var b := DirectoryImage(c, RootDir(c)).value;
      ENTRY_SIZE * (k + 1) <= |b| && EntryAt(b, k)[11] == VOLLABEL_ATTRIBUTE && text == LabelOf(EntryAt(b, k))
  {
    var b := DirectoryImage(c, RootDir(c)).value;
    k := LabelFound(b, |b| / ENTRY_SIZE, 0, text);
  }

  /** `fat32_get_label`. */
  method GetLabel(v: Volume) returns (r: Option<seq<byte>>)
    requires WellFormed(v)
    ensures ParseContext(v).None? ==> r.None?
    ensures ParseContext(v).Some? ==> r == ContextWithLabel(v).value.volLabel
  {
    var c := InitContext(v);
    if c.None? {
      return None;
    }
    return c.value.volLabel;
  }

  // --------------------------------------------------------------- the path

  /** A path component and what ended it. */
  datatype Part = Part(name: seq<byte>, isDir: bool, next: nat)

  /** The longest component `fat32_open` accepts, one less than the buffer. */
  const COMPONENT_MAX: nat := LFN_BUFFER - 1

  /** The first position at or after `p`, and less than 260 after the start
      `idx` of the component, at which the path ends or has a '/'. */
  function SeparatorFrom(path: seq<byte>, idx: nat, p: nat): (r: Option<nat>)
    ensures r.Some? ==> p <= r.value < idx + COMPONENT_MAX && IsSeparator(PathAt(path, r.value))
    ensures r.Some? ==> forall k :: p <= k < r.value ==> !IsSeparator(PathAt(path, k))
    ensures r.Some? && p <= |path| ==> r.value <= |path|
    ensures r.None? ==> forall k :: p <= k < idx + COMPONENT_MAX ==> !IsSeparator(PathAt(path, k))
    decreases idx + COMPONENT_MAX - p
  {
    if p >= idx + COMPONENT_MAX then None
    else if IsSeparator(PathAt(path, p)) then Some(p)
    else SeparatorFrom(path, idx, p + 1)
  }

  /** The component of the path at `idx`: up to the terminator (a file) or
      up to a '/' (a directory, with the walk going on after it); None when
      no terminator comes within 260 bytes or a 32-bit index would overflow. */
  function Component(path: seq<byte>, idx: nat): (r: Option<Part>)
    requires idx <= |path|
    ensures r.Some? ==> idx + |r.value.name| <= |path| && r.value.name == path[idx .. idx + |r.value.name|]
    ensures r.Some? ==> |r.value.name| < COMPONENT_MAX && forall k :: idx <= k < idx + |r.value.name| ==> !IsSeparator(path[k])
    ensures r.Some? && r.value.isDir ==> r.value.next == idx + |r.value.name| + 1 <= |path| && path[r.value.next - 1] == SLASH
    ensures r.Some? && !r.value.isDir ==> r.value.next == idx + |r.value.name| && PathAt(path, r.value.next) == 0
  {
    match SeparatorFrom(path, idx, idx)
    case None => None
    case Some(q) =>
      assert forall k :: idx <= k < q ==> PathAt(path, k) == path[k];
      if q > U32_MAX then None
      else if PathAt(path, q) == 0 then Some(Part(path[idx .. q], false, q))
      else if q + 1 > U32_MAX then None
      else Some(Part(path[idx .. q], true, q + 1))
  }

  /** Component names never hold a NUL. */
  lemma ComponentNulFree(path: seq<byte>, idx: nat)
    requires idx <= |path| && Component(path, idx).Some?
    ensures NulFree(Component(path, idx).value.name)
  {
    var name := Component(path, idx).value.name;
    assert forall k :: 0 <= k < |name| ==> name[k] == path[idx + k];
  }

  /** The component loop of `fat32_open`. */
  method NextComponent(path: seq<byte>, idx: nat) returns (r: Option<Part>)
    requires idx <= |path|
    ensures r == Component(path, idx)
  {
    var i := 0;
    while i < COMPONENT_MAX
      invariant i <= COMPONENT_MAX && idx + i <= |path|
      invariant SeparatorFrom(path, idx, idx + i) == SeparatorFrom(path, idx, idx)
    {
      if idx + i > U32_MAX {
        return None;
      }
      var b := if idx + i < |path| then path[idx + i] else 0;
      if b == 0 {
        return Some(Part(path[idx .. idx + i], false, idx + i));
      }
      if b == SLASH {
        if idx + i + 1 > U32_MAX {
          return None;
        }
        return Some(Part(path[idx .. idx + i], true, idx + i + 1));
      }
      i := i + 1;
    }
    return None;
  }

  /** The walk down the directory tree: each component ended by '/' is
      searched for and entered (whatever its attributes), and the last one
      is the file. */
  ghost function Resolve(c: FatCtx, dir: Option<seq<byte>>, path: seq<byte>, idx: nat, ci: bool): (r: Option<seq<byte>>)
    requires ValidCtx(c) && DirOk(dir) && idx <= |path|
    ensures DirOk(r)
    decreases |path| - idx
  {
    match Component(path, idx)
    case None => None
    case Some(p) =>
      match OpenInSpec(c, dir, Some(p.name), ci)
      case None => None
      case Some(e) => if p.isDir then Resolve(c, Some(e), path, p.next, ci) else Some(e)
  }

  // --------------------------------------------------------------- the file

  /** An open file: its context, first cluster, size and cluster chain
      (empty for an empty file without clusters). */
  datatype FatFile = FatFile(ctx: FatCtx, firstCluster: nat, sizeClusters: nat, sizeBytes: nat, chain: seq<nat>)

  /** The file a directory entry designates; an entry without a chain is
      accepted only with size 0. */
  ghost function FileOf(c: FatCtx, e: seq<byte>): (r: Option<FatFile>)
    requires ValidCtx(c) && |e| == ENTRY_SIZE
  {
    var first := FirstCluster(c.fatType, e);
    var size := LE32(e, 28);
    match ChainOf(c, first)
    case Some(chain) => Some(FatFile(c, first, DivRoundUp(size, c.bytesPerSector), size, chain))
    case None => if size != 0 then None else Some(FatFile(c, first, 0, 0, []))
  }

  /** `fat32_open`. */
  ghost function OpenSpec(v: Volume, path: seq<byte>, ci: bool): Option<FatFile>
    requires WellFormed(v)
  {
    match ContextWithLabel(v)
    case None => None
    case Some(c) =>
      match Resolve(c, RootDir(c), path, SkipSlashes(path, 0), ci)
      case None => None
      case Some(e) => FileOf(c, e)
  }

  /** The file handle for a directory entry. */
  method FileFromEntry(c: FatCtx, e: seq<byte>) returns (r: Option<FatFile>)
    requires ValidCtx(c) && |e| == ENTRY_SIZE
    ensures r == FileOf(c, e)
  {
    var first := FirstCluster(c.fatType, e);
    var size := LE32(e, 28);
    var chain := ChainFrom(c, first);
    if chain.None? {
      if size != 0 {
        return None;
      }
      return Some(FatFile(c, first, 0, 0, []));
    }
    return Some(FatFile(c, first, DivRoundUp(size, c.bytesPerSector), size, chain.value));
  }

  /** `fat32_open`: skips the leading slashes, then walks the path one
      component at a time from the root directory. */
  method Open(v: Volume, path: seq<byte>, ci: bool) returns (r: Option<FatFile>)
    requires WellFormed(v)
    ensures r == OpenSpec(v, path, ci)
  {
    var c := InitContext(v);
    if c.None? {
      return None;
    }
    var ctx := c.value;
    var idx := 0;
    while idx < |path| && path[idx] == SLASH
      invariant idx <= |path|
      invariant SkipSlashes(path, idx) == SkipSlashes(path, 0)
    {
      idx := idx + 1;
    }
    var dir := RootDir(ctx);
    while true
      invariant idx <= |path| && DirOk(dir)
      invariant Resolve(ctx, dir, path, idx, ci) == Resolve(ctx, RootDir(ctx), path, SkipSlashes(path, 0), ci)
      decreases |path| - idx
    {
      var part := NextComponent(path, idx);
      if part.None? {
        return None;
      }
      ComponentNulFree(path, idx);
      var found := OpenIn(ctx, dir, Some(part.value.name), ci);
      if found.None? {
        return None;
      }
      if !part.value.isDir {
        r := FileFromEntry(ctx, found.value);
        return;
      }
      dir := found;
      idx := part.value.next;
    }
  }

  /** An open file keeps a valid context, and its chain is the real one from
      its first cluster, or empty for an empty file. */
  lemma OpenedFile(v: Volume, path: seq<byte>, ci: bool)
    requires WellFormed(v) && OpenSpec(v, path, ci).Some?
    ensures var f := OpenSpec(v, path, ci).value;
      ValidCtx(f.ctx) && f.ctx.part == v &&
      (IsChain(f.ctx, f.firstCluster, f.chain) || (f.chain == [] && f.sizeBytes == 0))
  {
  }

  /** `fat32_read`: false where the source panics. */
  method FatRead(f: FatFile, buf: array<byte>, loc: nat, count: nat) returns (ok: bool)
    requires ValidCtx(f.ctx) && count <= buf.Length
    modifies buf
    ensures ok <==> FileRangeReadable(f.ctx, f.chain, loc, count)
    ensures ok ==> forall i :: 0 <= i < count ==>
      buf[i] == ByteAt(f.ctx.part, FileByteLoc(f.ctx, f.chain, loc + i).value).value
    ensures forall i :: count <= i < buf.Length ==> buf[i] == old(buf[i])
  {
    ClusterBytesBounds(f.ctx);
    ok := ReadClusterChain(f.ctx, f.chain, buf, loc, count);
  }
}
