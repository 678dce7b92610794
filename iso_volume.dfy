/** The per-volume state of the ISO 9660 driver
    (limine/common/fs/iso9660.s2.c:100-173): the search for the Primary
    Volume Descriptor (ECMA-119, section 8.4), the root directory loaded
    from it, and the list of contexts, one per volume seen, that keeps the
    root in memory. */
module IsoVolume {
  import opened Common
  import opened Volumes
  import opened IsoRecords

  /** `ISO9660_FIRST_VOLUME_DESCRIPTOR`. */
  const FIRST_DESCRIPTOR: nat := 16
  /** `ISO9660_MAX_VOLUME_DESCRIPTORS`. */
  const MAX_DESCRIPTORS: nat := 256
  /** `sizeof(struct iso9660_primary_volume)`: one sector. */
  const DESCRIPTOR_SIZE: nat := 2048
  const PRIMARY: byte := 1
  const TERMINATOR: byte := 255
  /** `ISO9660_MAX_DIR_SIZE`. */
  const MAX_DIR_SIZE: nat := 64 * 1024 * 1024
  /** Offset of the root directory record in the primary descriptor. */
  const ROOT_RECORD: nat := 156

  /** The volume descriptor at sector `lba`. */
  function Descriptor(v: Volume, lba: nat): (r: Option<seq<byte>>)
    requires WellFormed(v)
    ensures r.Some? ==> |r.value| == DESCRIPTOR_SIZE
  {
    Read(v, lba * SECTOR_SIZE, DESCRIPTOR_SIZE)
  }

  /** The search from sector `lba` on: the first primary descriptor, or
      None at a read failure, at a terminator, or once 256 descriptors have
      been looked at. */
  function PvdFrom(v: Volume, lba: nat): (r: Option<seq<byte>>)
    requires WellFormed(v)
    ensures r.Some? ==> |r.value| == DESCRIPTOR_SIZE && r.value[0] == PRIMARY
    decreases FIRST_DESCRIPTOR + MAX_DESCRIPTORS - lba
  {
    if lba >= FIRST_DESCRIPTOR + MAX_DESCRIPTORS then None
    else
      match Descriptor(v, lba)
      case None => None
      case Some(desc) =>
        if desc[0] == PRIMARY then Some(desc)
        else if desc[0] == TERMINATOR then None
        else PvdFrom(v, lba + 1)
  }

  /** A primary descriptor found lies at a sector from 16 to 271, and
      every descriptor before it was read and is neither primary nor a
      terminator. */
  lemma {:induction false} PvdFound(v: Volume, lba: nat) returns (k: nat)
    requires WellFormed(v) && PvdFrom(v, lba).Some?
    ensures lba <= k < FIRST_DESCRIPTOR + MAX_DESCRIPTORS && Descriptor(v, k) == PvdFrom(v, lba)
    ensures forall j :: lba <= j < k ==>
      Descriptor(v, j).Some? && Descriptor(v, j).value[0] != PRIMARY && Descriptor(v, j).value[0] != TERMINATOR
    decreases FIRST_DESCRIPTOR + MAX_DESCRIPTORS - lba
  {
    var desc := Descriptor(v, lba).value;
    if desc[0] == PRIMARY {
      k := lba;
    } else {
      k := PvdFound(v, lba + 1);
    }
  }

  /** `iso9660_find_PVD`: None where the source panics. */
  method FindPvd(v: Volume) returns (r: Option<seq<byte>>)
    requires WellFormed(v)
    ensures r == PvdFrom(v, FIRST_DESCRIPTOR)
  {
    var lba := FIRST_DESCRIPTOR;
    while lba < FIRST_DESCRIPTOR + MAX_DESCRIPTORS
      invariant FIRST_DESCRIPTOR <= lba <= FIRST_DESCRIPTOR + MAX_DESCRIPTORS
      invariant PvdFrom(v, lba) == PvdFrom(v, FIRST_DESCRIPTOR)
      decreases FIRST_DESCRIPTOR + MAX_DESCRIPTORS - lba
    {
      var desc := Read(v, lba * SECTOR_SIZE, DESCRIPTOR_SIZE);
      if desc.None? {
        return None;
      }
      if desc.value[0] == PRIMARY {
        return desc;
      }
      if desc.value[0] == TERMINATOR {
        return None;
      }
      lba := lba + 1;
    }
    return None;
  }

  /** The root directory as `iso9660_cache_root` loads it: the extent and
      size of the primary descriptor's root record, refused when the size
      is 0 or above 64 MiB. */
  function RootImage(v: Volume): (r: Option<seq<byte>>)
    requires WellFormed(v)
    ensures r.Some? ==> 0 < |r.value| <= MAX_DIR_SIZE
  {
    match PvdFrom(v, FIRST_DESCRIPTOR)
    case None => None
    case Some(pvd) =>
      var size := ExtentBytes(pvd, ROOT_RECORD);
      if size == 0 || size > MAX_DIR_SIZE then None
      else Read(v, ExtentLba(pvd, ROOT_RECORD) * SECTOR_SIZE, size)
  }

  /** `iso9660_cache_root`: None where the source panics. */
  method CacheRoot(v: Volume) returns (r: Option<seq<byte>>)
    requires WellFormed(v)
    ensures r == RootImage(v)
  {
    var pvd := FindPvd(v);
    if pvd.None? {
      return None;
    }
    var size := ExtentBytes(pvd.value, ROOT_RECORD);
    if size == 0 || size > MAX_DIR_SIZE {
      return None;
    }
    r := Read(v, ExtentLba(pvd.value, ROOT_RECORD) * SECTOR_SIZE, size);
  }

  // ------------------------------------------------------------ contexts

  /** `struct iso9660_context`: the volume and its root directory in
      memory (`root_size` is its length). */
  datatype IsoContext = IsoContext(vol: Volume, root: seq<byte>)

  /** The first context of the list for volume `v`. */
  function Lookup(ctxs: seq<IsoContext>, v: Volume): (r: Option<IsoContext>)
    ensures r.Some? ==> r.value in ctxs && r.value.vol == v
    ensures r.None? ==> forall c :: c in ctxs ==> c.vol != v
  {
    if ctxs == [] then None
    else if ctxs[0].vol == v then Some(ctxs[0])
    else Lookup(ctxs[1..], v)
  }

  /** The context holds the root directory its volume yields. */
  ghost predicate Holds(c: IsoContext)
  {
    WellFormed(c.vol) && RootImage(c.vol) == Some(c.root)
  }

  /** The list holds at most one context per volume, and each holds the
      root directory its volume yields. */
  ghost predicate Coherent(ctxs: seq<IsoContext>)
  {
    ctxs == [] ||
    (Holds(ctxs[0]) && (forall c :: c in ctxs[1..] ==> c.vol != ctxs[0].vol) && Coherent(ctxs[1..]))
  }

  /** The list after `iso9660_get_context(v)`: unchanged when `v` has a context
      or its root cannot be loaded, otherwise with one new context in front. */
  ghost function Registered(ctxs: seq<IsoContext>, v: Volume): seq<IsoContext>
    requires WellFormed(v)
  {
    if Lookup(ctxs, v).Some? then ctxs
    else
      match RootImage(v)
      case None => ctxs
      case Some(root) => [IsoContext(v, root)] + ctxs
  }

  /** Registering keeps the list coherent. */
  lemma RegisteredCoherent(ctxs: seq<IsoContext>, v: Volume)
    requires Coherent(ctxs) && WellFormed(v)
    ensures Coherent(Registered(ctxs, v))
    ensures |Registered(ctxs, v)| <= |ctxs| + 1
  {
    if Lookup(ctxs, v).None? && RootImage(v).Some? {
      ConsCoherent(ctxs, IsoContext(v, RootImage(v).value));
    }
  }

  /** A context for a volume the list lacks, holding the root the volume
      yields, can join the list. */
  lemma ConsCoherent(ctxs: seq<IsoContext>, c: IsoContext)
    requires Coherent(ctxs) && Holds(c)
    requires forall b :: b in ctxs ==> b.vol != c.vol
    ensures Coherent([c] + ctxs)
  {
    assert ([c] + ctxs)[1..] == ctxs;
  }

  /** A cached root is the root the volume yields now: the cache never
      changes what a lookup sees. */
  lemma {:induction false} CachedRoot(ctxs: seq<IsoContext>, v: Volume)
    requires Coherent(ctxs) && Lookup(ctxs, v).Some?
    ensures WellFormed(v) && RootImage(v) == Some(Lookup(ctxs, v).value.root)
    decreases |ctxs|
  {
    if ctxs[0].vol != v {
      CachedRoot(ctxs[1..], v);
    }
  }

  /** The global `contexts` list of the driver. */
  class Registry {
    var contexts: seq<IsoContext>

    ghost predicate Valid()
      reads this
    {
      Coherent(contexts)
    }

    constructor ()
      ensures Valid() && contexts == []
    {
      contexts := [];
    }

    /** `iso9660_get_context`: the context of `v`, created and prepended when
        `v` has none; None where the source panics. */
    method GetContext(v: Volume) returns (r: Option<IsoContext>)
      requires Valid() && WellFormed(v)
      modifies this
      ensures Valid()
      ensures contexts == Registered(old(contexts), v)
      ensures Lookup(old(contexts), v).Some? ==> r == Lookup(old(contexts), v)
      ensures Lookup(old(contexts), v).None? ==>
        r == (match RootImage(v) case None => None case Some(root) => Some(IsoContext(v, root)))
    {
      var i := 0;
      while i < |contexts|
        invariant i <= |contexts|
        invariant Lookup(contexts[i..], v) == Lookup(contexts, v)
      {
        if contexts[i].vol == v {
          return Some(contexts[i]);
        }
        assert contexts[i..][1..] == contexts[i + 1..];
        i := i + 1;
      }
      var root := CacheRoot(v);
      if root.None? {
        return None;
      }
      RegisteredCoherent(contexts, v);
      r := Some(IsoContext(v, root.value));
      contexts := [r.value] + contexts;
    }
  }
}
