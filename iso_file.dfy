/** Files on an ISO 9660 volume (limine/common/fs/iso9660.s2.c:350-554):
    the path walk and extent collection of `iso9660_open`, and
    `iso9660_read` across the extents of a file. */
module IsoFile {
  import opened Common
  import opened Volumes
  import opened IsoRecords
  import opened IsoFind
  import opened IsoVolume

  /** `ISO9660_MAX_EXTENT_COUNT`. */
  const MAX_EXTENT_COUNT: nat := 65536
  /** The longest path component: `filename[ROCK_RIDGE_MAX_FILENAME]` less
      its terminator. */
  const COMPONENT_LIMIT: nat := 254
  /** Where the standard identifier of the first volume descriptor lies. */
  const SIGNATURE_AT: nat := FIRST_DESCRIPTOR * SECTOR_SIZE + 1
  /** "CD001". */
  const SIGNATURE: seq<byte> := [0x43, 0x44, 0x30, 0x30, 0x31]

  /** `struct iso9660_extent`. */
  datatype Extent = Extent(lba: nat, size: nat)

  /** `struct iso9660_file_handle` with the volume of its context:
      `total_size` and the extents in file order. */
  datatype IsoHandle = IsoHandle(vol: Volume, totalSize: nat, extents: seq<Extent>)

  function ExtentOf(d: seq<byte>, p: nat): Extent
    requires WholeRecord(d, p)
  {
    Extent(ExtentLba(d, p), ExtentBytes(d, p))
  }

  // -------------------------------------------------------------- extents

  /** The records of a file from the record at `p`, the `count`-th: each
      record with the multi-extent flag is followed by the next record,
      up to 65536 records in all. */
  function ExtentRecords(d: seq<byte>, p: nat, count: nat): (r: seq<nat>)
    requires WholeRecord(d, p) && 1 <= count <= MAX_EXTENT_COUNT
    ensures 1 <= |r| && count - 1 + |r| <= MAX_EXTENT_COUNT && r[0] == p
    ensures forall i :: 0 <= i < |r| ==> WholeRecord(d, r[i])
    decreases MAX_EXTENT_COUNT - count
  {
    if !MultiExtent(d, p) || count >= MAX_EXTENT_COUNT then [p]
    else
      match NextEntry(d, p)
      case None => [p]
      case Some(q) => [p] + ExtentRecords(d, q, count + 1)
  }

  /** Each record but the last has the multi-extent flag and is followed by
      the next. */
  ghost predicate Linked(d: seq<byte>, r: seq<nat>)
  {
    forall i :: 0 <= i < |r| - 1 ==>
      HasHeader(d, r[i]) && MultiExtent(d, r[i]) && NextEntry(d, r[i]) == Some(r[i + 1])
  }

  /** Each record of a file but the last has the multi-extent flag and is
      followed by the next. */
  lemma {:induction false} RecordsLinked(d: seq<byte>, p: nat, count: nat)
    requires WholeRecord(d, p) && 1 <= count <= MAX_EXTENT_COUNT
    ensures Linked(d, ExtentRecords(d, p, count))
    decreases MAX_EXTENT_COUNT - count
  {
    if MultiExtent(d, p) && count < MAX_EXTENT_COUNT && NextEntry(d, p).Some? {
      var q := NextEntry(d, p).value;
      RecordsLinked(d, q, count + 1);
      var r, rest := ExtentRecords(d, p, count), ExtentRecords(d, q, count + 1);
      assert r == [p] + rest && rest[0] == q;
      forall i | 0 <= i < |r| - 1
        ensures MultiExtent(d, r[i]) && NextEntry(d, r[i]) == Some(r[i + 1])
      {
        if i > 0 {
          assert r[i] == rest[i - 1] && r[i + 1] == rest[i - 1 + 1];
          assert MultiExtent(d, rest[i - 1]) && NextEntry(d, rest[i - 1]) == Some(rest[i - 1 + 1]);
        } else {
          assert r[1] == q;
        }
      }
    }
  }

  /** The extents of the records. */
  function ExtentsAt(d: seq<byte>, rs: seq<nat>): (r: seq<Extent>)
    requires forall i :: 0 <= i < |rs| ==> WholeRecord(d, rs[i])
    ensures |r| == |rs| && forall i :: 0 <= i < |rs| ==> r[i] == ExtentOf(d, rs[i])
  {
    seq(|rs|, i requires 0 <= i < |rs| => ExtentOf(d, rs[i]))
  }

  /** Offset in the file of extent `i`: the sizes of the extents before it. */
  function ExtentStart(exts: seq<Extent>, i: nat): nat
    requires i <= |exts|
  {
    if i == 0 then 0 else ExtentStart(exts, i - 1) + exts[i - 1].size
  }

  /** The size of a file made of the extents. */
  function Total(exts: seq<Extent>): nat
  {
    ExtentStart(exts, |exts|)
  }

  lemma {:induction false} TotalAppend(exts: seq<Extent>, x: Extent)
    ensures Total(exts + [x]) == Total(exts) + x.size
  {
    var n := exts + [x];
    assert n[..|exts|] == exts;
    PrefixStart(n, exts, |exts|);
  }

  /** The starts of the extents depend only on the extents before them. */
  lemma {:induction false} PrefixStart(a: seq<Extent>, b: seq<Extent>, i: nat)
    requires i <= |a| && i <= |b| && a[..i] == b[..i]
    ensures ExtentStart(a, i) == ExtentStart(b, i)
  {
    if i > 0 {
      assert a[..i - 1] == b[..i - 1];
      assert a[i - 1] == a[..i][i - 1];
      PrefixStart(a, b, i - 1);
    }
  }

  /** The starts of the extents never decrease. */
  lemma {:induction false} StartMono(exts: seq<Extent>, i: nat, j: nat)
    requires i <= j <= |exts|
    ensures ExtentStart(exts, i) <= ExtentStart(exts, j)
    decreases j - i
  {
    if i < j {
      StartMono(exts, i, j - 1);
    }
  }

  /** Taking one more record: the extents and their total grow by it. */
  lemma ExtentsAppend(d: seq<byte>, rs: seq<nat>, e: nat)
    requires (forall i :: 0 <= i < |rs| ==> WholeRecord(d, rs[i])) && WholeRecord(d, e)
    ensures ExtentsAt(d, rs + [e]) == ExtentsAt(d, rs) + [ExtentOf(d, e)]
    ensures Total(ExtentsAt(d, rs + [e])) == Total(ExtentsAt(d, rs)) + ExtentBytes(d, e)
  {
    assert ExtentsAt(d, rs + [e]) == ExtentsAt(d, rs) + [ExtentOf(d, e)];
    TotalAppend(ExtentsAt(d, rs), ExtentOf(d, e));
  }

  /** The walk over the records goes on past a multi-extent record. */
  lemma RecordsStep(d: seq<byte>, e: nat, count: nat, q: nat)
    requires WholeRecord(d, e) && 1 <= count < MAX_EXTENT_COUNT
    requires MultiExtent(d, e) && NextEntry(d, e) == Some(q)
    ensures ExtentRecords(d, e, count) == [e] + ExtentRecords(d, q, count + 1)
  {
  }

  /** The two passes of `iso9660_open` over the records of a file: the
      first counts them and adds up their sizes, the second fills the
      extent array. */
  method CollectExtents(d: seq<byte>, p: nat) returns (exts: seq<Extent>, total: nat)
    requires WholeRecord(d, p)
    ensures exts == ExtentsAt(d, ExtentRecords(d, p, 1))
    ensures total == Total(exts)
  {
    var count;
    ghost var recs;
    count, total, recs := CountExtents(d, p);
    RecordsLinked(d, p, 1);
    exts := FillExtents(d, p, count, recs);
  }

  /** The first pass: the number of records of the file and the sum of
      their sizes. */
  method CountExtents(d: seq<byte>, p: nat) returns (count: nat, total: nat, ghost recs: seq<nat>)
    requires WholeRecord(d, p)
    ensures recs == ExtentRecords(d, p, 1) && count == |recs|
    ensures total == Total(ExtentsAt(d, recs))
  {
    count := 1;
    total := ExtentBytes(d, p);
    var e := p;
    ghost var done: seq<nat> := [];
    recs := ExtentRecords(d, p, 1);
    ExtentsAppend(d, [], p);
    assert [] + [p] == [p];
    while MultiExtent(d, e)
      invariant WholeRecord(d, e) && 1 <= count < MAX_EXTENT_COUNT && |done| == count - 1
      invariant forall i :: 0 <= i < |done| ==> WholeRecord(d, done[i])
      invariant done + ExtentRecords(d, e, count) == recs
      invariant total == Total(ExtentsAt(d, done + [e]))
      decreases MAX_EXTENT_COUNT - count
    {
      var next := NextEntry(d, e);
      if next.None? {
        break;
      }
      done, e, count, total := CountStep(d, done, e, count, total, next.value, recs);
      if count >= MAX_EXTENT_COUNT {
        break;
      }
    }
    assert recs == done + [e];
  }

  /** A turn of the first pass: the record `e` joins those counted. */
  method CountStep(d: seq<byte>, ghost done: seq<nat>, e: nat, count: nat, total: nat, q: nat, ghost target: seq<nat>)
    returns (ghost done': seq<nat>, e': nat, count': nat, total': nat)
    requires WholeRecord(d, e) && 1 <= count < MAX_EXTENT_COUNT && |done| == count - 1
    requires forall i :: 0 <= i < |done| ==> WholeRecord(d, done[i])
    requires MultiExtent(d, e) && NextEntry(d, e) == Some(q)
    requires done + ExtentRecords(d, e, count) == target
    requires total == Total(ExtentsAt(d, done + [e]))
    ensures done' == done + [e] && e' == q && count' == count + 1 && WholeRecord(d, q)
    ensures forall i :: 0 <= i < |done'| ==> WholeRecord(d, done'[i])
    ensures done' + ExtentRecords(d, e', count') == target
    ensures total' == Total(ExtentsAt(d, done' + [e']))
  {
    RecordsShift(d, done, e, count, q, target);
    done', e', count' := done + [e], q, count + 1;
    total' := total + ExtentBytes(d, q);
    ExtentsAppend(d, done', q);
  }

  /** The record counted moves from the records ahead to those behind. */
  lemma RecordsShift(d: seq<byte>, done: seq<nat>, e: nat, count: nat, q: nat, target: seq<nat>)
    requires WholeRecord(d, e) && 1 <= count < MAX_EXTENT_COUNT
    requires MultiExtent(d, e) && NextEntry(d, e) == Some(q)
    requires done + ExtentRecords(d, e, count) == target
    ensures (done + [e]) + ExtentRecords(d, q, count + 1) == target
  {
    RecordsStep(d, e, count, q);
    assert done + ([e] + ExtentRecords(d, q, count + 1)) == (done + [e]) + ExtentRecords(d, q, count + 1);
  }

  /** The second pass: walks the same records again. */
  method FillExtents(d: seq<byte>, p: nat, count: nat, ghost recs: seq<nat>) returns (exts: seq<Extent>)
    requires 1 <= |recs| == count <= MAX_EXTENT_COUNT && recs[0] == p
    requires (forall i :: 0 <= i < |recs| ==> WholeRecord(d, recs[i])) && Linked(d, recs)
    ensures exts == ExtentsAt(d, recs)
  {
    var a := new Extent[count];
    var e := p;
    var i := 0;
    while i < count
      invariant i <= count && (i < count ==> e == recs[i])
      invariant forall k :: 0 <= k < i ==> a[k] == ExtentOf(d, recs[k])
    {
      a[i] := ExtentOf(d, e);
      if i + 1 < count {
        assert NextEntry(d, e) == Some(recs[i + 1]);
        var next := NextEntry(d, e);
        if next.None? {
          assert false;
          break;
        }
        e := next.value;
      }
      i := i + 1;
    }
    exts := a[..];
    assert forall k :: 0 <= k < count ==> exts[k] == ExtentOf(d, recs[k]);
  }

  // ------------------------------------------------------------ the path

  /** The end of the component that starts at `idx`, looked for from `p`:
      the first '/' or terminator, or None (the source panics) when it is
      more than 254 bytes on. */
  function ComponentEnd(path: seq<byte>, idx: nat, p: nat): (r: Option<nat>)
    requires idx <= p <= idx + COMPONENT_LIMIT
    ensures r.Some? ==> p <= r.value <= idx + COMPONENT_LIMIT && IsSeparator(PathAt(path, r.value))
    ensures r.Some? ==> forall k :: p <= k < r.value ==> !IsSeparator(PathAt(path, k))
    ensures r.Some? && p <= |path| ==> r.value <= |path|
    ensures r.None? ==> forall k :: p <= k <= idx + COMPONENT_LIMIT ==> !IsSeparator(PathAt(path, k))
    decreases idx + COMPONENT_LIMIT - p
  {
    if IsSeparator(PathAt(path, p)) then Some(p)
    else if p == idx + COMPONENT_LIMIT then None
    else ComponentEnd(path, idx, p + 1)
  }

  /** The copy of one component into `filename`. */
  method ComponentAt(path: seq<byte>, idx: nat) returns (r: Option<nat>)
    requires idx <= |path|
    ensures r == ComponentEnd(path, idx, idx)
  {
    var p := idx;
    while !IsSeparator(PathAt(path, p))
      invariant idx <= p <= idx + COMPONENT_LIMIT
      invariant ComponentEnd(path, idx, p) == ComponentEnd(path, idx, idx)
      decreases idx + COMPONENT_LIMIT - p
    {
      if p - idx >= COMPONENT_LIMIT {
        return None;
      }
      p := p + 1;
    }
    return Some(p);
  }

  /** The handle of a file whose record is at `p`: its extents and their
      total size. */
  function FileHandle(v: Volume, d: seq<byte>, p: nat): (h: IsoHandle)
    requires WholeRecord(d, p)
    ensures Shaped(v, h)
  {
    var exts := ExtentsAt(d, ExtentRecords(d, p, 1));
    IsoHandle(v, Total(exts), exts)
  }

  /** A handle on `v` with one to 65536 extents whose sizes add up to the
      size it reports. */
  predicate Shaped(v: Volume, h: IsoHandle)
  {
    h.vol == v && 1 <= |h.extents| <= MAX_EXTENT_COUNT && h.totalSize == Total(h.extents)
  }

  /** The outcome of one turn of the walk: the result of the open, or the
      subdirectory entered and where the path goes on. */
  datatype Step = Finished(result: Option<IsoHandle>) | Descend(dir: seq<byte>, entered: Extent, next: nat)

  /** What `iso9660_open` does with the record at `p` found for the
      component that ends at `q`: at the end of the path, the file;
      otherwise the directory it names, refused when its size is 0 or
      above 64 MiB. */
  function Found(v: Volume, dir: seq<byte>, p: nat, path: seq<byte>, q: nat): (r: Step)
    requires WellFormed(v) && WholeRecord(dir, p) && q <= |path|
    ensures r.Finished? && r.result.Some? ==> Shaped(v, r.result.value)
    ensures r.Descend? ==> r.next == q + 1 <= |path| && r.entered == ExtentOf(dir, p)
    ensures r.Descend? ==> 0 < r.entered.size <= MAX_DIR_SIZE && |r.dir| == r.entered.size
  {
    if PathAt(path, q) == 0 then Finished(Some(FileHandle(v, dir, p)))
    else
      var x := ExtentOf(dir, p);
      if x.size == 0 || x.size > MAX_DIR_SIZE then Finished(None)
      else
        match Read(v, x.lba * SECTOR_SIZE, x.size)
        case None => Finished(None)
        case Some(sub) => Descend(sub, x, q + 1)
  }

  /** One turn of the loop of `iso9660_open` from position `idx` of the path
      in the directory `dir`; `entered` is the extent of `dir` once the walk
      has left the root. A path that ends after a '/' opens the directory
      last entered, as a single extent. */
  function StepOf(v: Volume, dir: seq<byte>, entered: Option<Extent>, path: seq<byte>, idx: nat, ci: bool): (r: Step)
    requires WellFormed(v) && idx <= |path|
    ensures r.Finished? && r.result.Some? ==> Shaped(v, r.result.value)
    ensures r.Descend? ==> idx < r.next <= |path|
  {
    var i := SkipSlashes(path, idx);
    if PathAt(path, i) == 0 then
      match entered
      case None => Finished(None)
      case Some(x) =>
        assert Total([x]) == ExtentStart([x], 0) + x.size;
        Finished(Some(IsoHandle(v, x.size, [x])))
    else
      match ComponentEnd(path, i, i)
      case None => Finished(None)
      case Some(q) =>
        match FindFrom(dir, 0, path[i .. q], ci)
        case None => Finished(None)
        case Some(p) => Found(v, dir, p, path, q)
  }

  /** The whole walk: turns of the loop until one finishes. */
  function Walk(v: Volume, dir: seq<byte>, entered: Option<Extent>, path: seq<byte>, idx: nat, ci: bool): (r: Option<IsoHandle>)
    requires WellFormed(v) && idx <= |path|
    ensures r.Some? ==> Shaped(v, r.value)
    decreases |path| - idx
  {
    match StepOf(v, dir, entered, path, idx, ci)
    case Finished(result) => result
    case Descend(sub, x, next) => Walk(v, sub, Some(x), path, next, ci)
  }

  /** `iso9660_open`: None for a volume without the "CD001" identifier, for a
      root that cannot be loaded, and wherever the walk fails; a handle is
      always on `v`, with one to 65536 extents adding up to its size. */
  ghost function OpenSpec(v: Volume, path: seq<byte>, ci: bool): (r: Option<IsoHandle>)
    requires WellFormed(v)
    ensures r.Some? ==> Shaped(v, r.value)
    ensures Read(v, SIGNATURE_AT, |SIGNATURE|) != Some(SIGNATURE) ==> r.None?
  {
    if Read(v, SIGNATURE_AT, |SIGNATURE|) != Some(SIGNATURE) then None
    else
      match RootImage(v)
      case None => None
      case Some(root) => Walk(v, root, None, path, 0, ci)
  }

  /** A path of slashes only, the empty path included, opens nothing. */
  lemma OnlySlashes(v: Volume, path: seq<byte>, ci: bool)
    requires WellFormed(v)
    requires forall k :: 0 <= k < |path| ==> path[k] == SLASH
    ensures OpenSpec(v, path, ci).None?
  {
  }

  /** The file a path names is a record of the last directory walked whose
      name matches the last component of the path. */
  lemma FoundMatches(v: Volume, dir: seq<byte>, entered: Option<Extent>, path: seq<byte>, idx: nat, ci: bool)
    returns (i: nat, q: nat, p: nat)
    requires WellFormed(v) && idx <= |path| && PathAt(path, SkipSlashes(path, idx)) != 0
    requires StepOf(v, dir, entered, path, idx, ci).Finished?
    requires StepOf(v, dir, entered, path, idx, ci).result.Some?
    ensures idx <= i < q <= |path| && PathAt(path, q) == 0 && WholeRecord(dir, p)
    ensures Matches(path[i .. q], LoadNameSpec(Record(dir, p)), ci)
    ensures StepOf(v, dir, entered, path, idx, ci).result == Some(FileHandle(v, dir, p))
  {
    i := SkipSlashes(path, idx);
    q := ComponentEnd(path, i, i).value;
    p := FindFrom(dir, 0, path[i .. q], ci).value;
    FindFound(dir, 0, path[i .. q], ci);
  }

  /** The slash-skipping loops of `iso9660_open`. */
  method SkipSlashLoop(path: seq<byte>, idx: nat) returns (r: nat)
    requires idx <= |path|
    ensures r == SkipSlashes(path, idx)
  {
    r := idx;
    while r < |path| && path[r] == SLASH
      invariant idx <= r <= |path|
      invariant SkipSlashes(path, r) == SkipSlashes(path, idx)
    {
      r := r + 1;
    }
  }

  /** `iso9660_open`. The registry may gain the context of `v`; what is
      opened does not depend on whether it was there before. */
  method Open(reg: Registry, v: Volume, path: seq<byte>, ci: bool) returns (r: Option<IsoHandle>)
    requires reg.Valid() && WellFormed(v)
    modifies reg
    ensures reg.Valid()
    ensures r == OpenSpec(v, path, ci)
    ensures Read(v, SIGNATURE_AT, |SIGNATURE|) != Some(SIGNATURE) ==> reg.contexts == old(reg.contexts)
    ensures Read(v, SIGNATURE_AT, |SIGNATURE|) == Some(SIGNATURE) ==> reg.contexts == Registered(old(reg.contexts), v)
  {
    var sig := Read(v, SIGNATURE_AT, |SIGNATURE|);
    if sig != Some(SIGNATURE) {
      return None;
    }
    ghost var before := reg.contexts;
    var ctx := reg.GetContext(v);
    if ctx.None? {
      return None;
    }
    if Lookup(before, v).Some? {
      CachedRoot(before, v);
    }
    r := Walkthrough(v, ctx.value.root, path, ci);
  }

  /** The loop of `iso9660_open`, from the root directory. */
  method Walkthrough(v: Volume, root: seq<byte>, path: seq<byte>, ci: bool) returns (r: Option<IsoHandle>)
    requires WellFormed(v)
    ensures r == Walk(v, root, None, path, 0, ci)
  {
    ghost var target := Walk(v, root, None, path, 0, ci);
    var idx := SkipSlashLoop(path, 0);
    SkipSlashesAgain(path, 0);
    var dir := root;
    var entered: Option<Extent> := None;
    while true
      invariant idx <= |path|
      invariant Walk(v, dir, entered, path, idx, ci) == target
      decreases |path| - idx
    {
      var step := WalkStep(v, dir, entered, path, idx, ci);
      if step.Finished? {
        return step.result;
      }
      dir, entered, idx := step.dir, Some(step.entered), step.next;
    }
  }

  /** Skipping slashes twice skips no more than once, so the loop of
      `iso9660_open` starts where the first skip ended. */
  lemma SkipSlashesAgain(path: seq<byte>, idx: nat)
    requires idx <= |path|
    ensures SkipSlashes(path, SkipSlashes(path, idx)) == SkipSlashes(path, idx)
  {
  }

  /** One turn of the loop of `iso9660_open`: skip slashes, stop at the end
      of the path, copy a component and look it up. */
  method WalkStep(v: Volume, dir: seq<byte>, entered: Option<Extent>, path: seq<byte>, idx: nat, ci: bool) returns (s: Step)
    requires WellFormed(v) && idx <= |path|
    ensures s == StepOf(v, dir, entered, path, idx, ci)
  {
    var i := SkipSlashLoop(path, idx);
    if PathAt(path, i) == 0 {
      if entered.None? {
        return Finished(None);
      }
      return Finished(Some(IsoHandle(v, entered.value.size, [entered.value])));
    }
    var q := ComponentAt(path, i);
    if q.None? {
      return Finished(None);
    }
    var found := Find(dir, path[i .. q.value], ci);
    if found.None? {
      return Finished(None);
    }
    s := FoundStep(v, dir, found.value, path, q.value);
  }

  /** The rest of the turn: collect the extents of the file, or load the
      subdirectory. */
  method FoundStep(v: Volume, dir: seq<byte>, p: nat, path: seq<byte>, q: nat) returns (s: Step)
    requires WellFormed(v) && WholeRecord(dir, p) && q <= |path|
    ensures s == Found(v, dir, p, path, q)
  {
    if PathAt(path, q) == 0 {
      var exts, total := CollectExtents(dir, p);
      return Finished(Some(IsoHandle(v, total, exts)));
    }
    var x := ExtentOf(dir, p);
    if x.size == 0 || x.size > MAX_DIR_SIZE {
      return Finished(None);
    }
    var sub := Read(v, x.lba * SECTOR_SIZE, x.size);
    if sub.None? {
      return Finished(None);
    }
    return Descend(sub.value, x, q + 1);
  }

  // ------------------------------------------------------------ reading

  /** The extent that holds byte `x` of the file, looked for from extent
      `i` on. */
  function ExtentIndex(exts: seq<Extent>, i: nat, x: nat): (k: nat)
    requires i <= |exts| && ExtentStart(exts, i) <= x < Total(exts)
    ensures i <= k < |exts| && ExtentStart(exts, k) <= x < ExtentStart(exts, k + 1)
    decreases |exts| - i
  {
    if x < ExtentStart(exts, i + 1) then i else ExtentIndex(exts, i + 1, x)
  }

  /** The extent that holds a byte is the one whose range covers it. */
  lemma {:induction false} IndexOf(exts: seq<Extent>, i: nat, k: nat, x: nat)
    requires i <= k < |exts| && ExtentStart(exts, k) <= x < ExtentStart(exts, k + 1)
    ensures ExtentStart(exts, i) <= x < Total(exts) && ExtentIndex(exts, i, x) == k
    decreases k - i
  {
    StartMono(exts, i, k);
    StartMono(exts, k + 1, |exts|);
    if i < k {
      StartMono(exts, i + 1, k);
      IndexOf(exts, i + 1, k, x);
    }
  }

  /** Byte `x` of the file: the byte of the volume at that offset in the
      extent that holds it. */
  function FileByte(f: IsoHandle, x: nat): Option<byte>
    requires WellFormed(f.vol) && x < Total(f.extents)
  {
    var k := ExtentIndex(f.extents, 0, x);
    ByteAt(f.vol, f.extents[k].lba * SECTOR_SIZE + (x - ExtentStart(f.extents, k)))
  }

  /** How many bytes a read of `count` bytes at `loc` delivers: none from
      the end of the last extent on. */
  function ReadLength(exts: seq<Extent>, loc: nat, count: nat): (n: nat)
    ensures n <= count && (n > 0 ==> loc + n <= Total(exts))
    ensures n < count ==> loc + n >= Total(exts)
  {
    if loc >= Total(exts) then 0
    else if count < Total(exts) - loc then count
    else Total(exts) - loc
  }

  /** Where file offset `at`, inside extent `i`, lies on the volume. */
  function ChunkBase(f: IsoHandle, i: nat, at: nat): nat
    requires i < |f.extents| && ExtentStart(f.extents, i) <= at
  {
    f.extents[i].lba * SECTOR_SIZE + (at - ExtentStart(f.extents, i))
  }

  /** The bytes of extent `i` from file offset `at` on are the bytes of the
      volume from the matching offset in the extent on. */
  lemma ChunkBytes(f: IsoHandle, i: nat, at: nat, x: nat)
    requires WellFormed(f.vol) && i < |f.extents|
    requires ExtentStart(f.extents, i) <= at <= x < ExtentStart(f.extents, i + 1)
    ensures x < Total(f.extents)
    ensures FileByte(f, x) == ByteAt(f.vol, ChunkBase(f, i, at) + (x - at))
  {
    IndexOf(f.extents, 0, i, x);
    assert f.extents[i].lba * SECTOR_SIZE + (x - ExtentStart(f.extents, i)) == ChunkBase(f, i, at) + (x - at);
  }

  /** `iso9660_read`: copies `count` bytes from `loc` on, extent by extent,
      into `buf`; false where the source panics on a failed volume read, which
      happens exactly when one of the bytes cannot be read. Bytes past the end
      of the file are not read and the buffer keeps them. */
  method IsoRead(f: IsoHandle, buf: array<byte>, loc: nat, count: nat) returns (ok: bool)
    requires WellFormed(f.vol) && count <= buf.Length
    modifies buf
    ensures ok <==> forall x :: loc <= x < loc + ReadLength(f.extents, loc, count) ==> FileByte(f, x).Some?
    ensures ok ==> forall j :: 0 <= j < ReadLength(f.extents, loc, count) ==> FileByte(f, loc + j) == Some(buf[j])
    ensures ok ==> forall j :: ReadLength(f.extents, loc, count) <= j < buf.Length ==> buf[j] == old(buf[j])
  {
    var exts := f.extents;
    var i: nat, start: nat, done: nat := 0, 0, 0;
    while i < |exts| && done < count
      invariant i <= |exts| && start == ExtentStart(exts, i) && start <= Total(exts) && done <= count
      invariant done < count ==> start <= loc + done
      invariant done > 0 ==> loc + done <= start
      invariant forall x :: loc <= x < loc + done ==> FileByte(f, x) == Some(buf[x - loc])
      invariant forall j :: done <= j < buf.Length ==> buf[j] == old(buf[j])
      decreases |exts| - i
    {
      StartMono(exts, i + 1, |exts|);
      var end := start + exts[i].size;
      if loc + done < end {
        var got := ReadChunk(f, buf, i, start, loc, done, count);
        if got.None? {
          var x :| loc + done <= x < loc + count && x < ExtentStart(exts, i + 1) && FileByte(f, x).None?;
          assert x < loc + ReadLength(exts, loc, count);
          return false;
        }
        done := got.value;
      }
      start := end;
      i := i + 1;
    }
    assert done == ReadLength(exts, loc, count);
    forall j | 0 <= j < done
      ensures FileByte(f, loc + j) == Some(buf[j])
    {
      assert FileByte(f, loc + j) == Some(buf[loc + j - loc]);
    }
    return true;
  }

  /** One turn of the loop of `iso9660_read`: the bytes of extent `i` from
      file offset `loc + done` on, as many as remain to be read and the
      extent holds. None when the volume read fails, which happens exactly
      when one of those bytes cannot be read. */
  method ReadChunk(f: IsoHandle, buf: array<byte>, i: nat, start: nat, loc: nat, done: nat, count: nat)
    returns (r: Option<nat>)
    requires WellFormed(f.vol) && count <= buf.Length && i < |f.extents|
    requires start == ExtentStart(f.extents, i) && start <= loc + done < start + f.extents[i].size
    requires done < count
    modifies buf
    ensures ExtentStart(f.extents, i + 1) <= Total(f.extents)
    ensures r.None? ==> exists x :: loc + done <= x < loc + count && x < ExtentStart(f.extents, i + 1) && FileByte(f, x).None?
    ensures r.Some? ==> done < r.value <= count && loc + r.value <= ExtentStart(f.extents, i + 1)
    ensures r.Some? && r.value < count ==> loc + r.value == ExtentStart(f.extents, i + 1)
    ensures r.Some? ==> forall x :: loc + done <= x < loc + r.value ==> x < Total(f.extents) && FileByte(f, x) == Some(buf[x - loc])
    ensures r.Some? ==> forall j :: 0 <= j < buf.Length && !(done <= j < r.value) ==> buf[j] == old(buf[j])
  {
    var x := f.extents[i];
    var at := loc + done;
    var offset := if at > start then at - start else 0;
    var avail := x.size - offset;
    var toRead := if count - done < avail then count - done else avail;
    assert x.lba * SECTOR_SIZE + offset == ChunkBase(f, i, at);
    var data := Read(f.vol, x.lba * SECTOR_SIZE + offset, toRead);
    StartMono(f.extents, i + 1, |f.extents|);
    if data.None? {
      var y := ChunkFails(f, i, at, toRead);
      assert loc + done <= y < loc + count && y < ExtentStart(f.extents, i + 1);
      return None;
    }
    CopyChunk(buf, data.value, done);
    ChunkLanded(f, i, at, loc, data.value, buf[..]);
    r := Some(done + toRead);
  }


  /** A failed read of extent `i` from file offset `at` on misses a byte of
      the file. */
  lemma ChunkFails(f: IsoHandle, i: nat, at: nat, n: nat) returns (y: nat)
    requires WellFormed(f.vol) && i < |f.extents| && n > 0
    requires ExtentStart(f.extents, i) <= at && at + n <= ExtentStart(f.extents, i + 1)
    requires Read(f.vol, ChunkBase(f, i, at), n).None?
    ensures at + n <= Total(f.extents)
    ensures at <= y < at + n && FileByte(f, y).None?
  {
    StartMono(f.extents, i + 1, |f.extents|);
    var base := ChunkBase(f, i, at);
    ReadBytewise(f.vol, base, n);
    var z :| base <= z < base + n && ByteAt(f.vol, z).None?;
    y := at + (z - base);
    ChunkBytes(f, i, at, y);
    assert base + (y - at) == z;
  }

  /** The bytes of a successful read, copied to `b` from `at - loc` on, are
      the bytes of the file from `at` on. */
  lemma ChunkLanded(f: IsoHandle, i: nat, at: nat, loc: nat, data: seq<byte>, b: seq<byte>)
    requires WellFormed(f.vol) && i < |f.extents| && |data| > 0 && loc <= at && at - loc + |data| <= |b|
    requires ExtentStart(f.extents, i) <= at && at + |data| <= ExtentStart(f.extents, i + 1)
    requires Read(f.vol, ChunkBase(f, i, at), |data|) == Some(data)
    requires forall j :: at - loc <= j < at - loc + |data| ==> b[j] == data[j - (at - loc)]
    ensures at + |data| <= Total(f.extents)
    ensures forall x :: at <= x < at + |data| ==> FileByte(f, x) == Some(b[x - loc])
  {
    ChunkHolds(f, i, at, data);
    forall x | at <= x < at + |data|
      ensures FileByte(f, x) == Some(b[x - loc])
    {
      assert b[(at - loc) + (x - at)] == data[x - at];
    }
  }

  /** A read of extent `i` from file offset `at` on that succeeds delivers
      the bytes of the file. */
  lemma ChunkHolds(f: IsoHandle, i: nat, at: nat, data: seq<byte>)
    requires WellFormed(f.vol) && i < |f.extents| && |data| > 0
    requires ExtentStart(f.extents, i) <= at && at + |data| <= ExtentStart(f.extents, i + 1)
    requires Read(f.vol, ChunkBase(f, i, at), |data|) == Some(data)
    ensures at + |data| <= Total(f.extents)
    ensures forall x :: at <= x < at + |data| ==> FileByte(f, x) == Some(data[x - at])
  {
    var n := |data|;
    StartMono(f.extents, i + 1, |f.extents|);
    var base := ChunkBase(f, i, at);
    ReadBytewise(f.vol, base, n);
    forall x | at <= x < at + n
      ensures FileByte(f, x) == Some(data[x - at])
    {
      ChunkBytes(f, i, at, x);
      assert ByteAt(f.vol, base + (x - at)) == Some(data[x - at]);
    }
  }
}
