/** The volume index: the list of every volume the bootloader discovered,
    and the three linear lookups over it (limine/common/lib/part.s2.c:591-630).
    Each returns the first volume in index order that matches. */
module VolumeIndex {
  import opened Common
  import opened Volumes

  /** Position of the first volume from `i` on that satisfies `matches`. */
  function FindFrom(index: seq<Volume>, matches: Volume -> bool, i: nat): (r: Option<nat>)
    requires i <= |index|
    ensures r.Some? ==> i <= r.value < |index| && matches(index[r.value])
    ensures r.Some? ==> forall k :: i <= k < r.value ==> !matches(index[k])
    ensures r.None? <==> forall k :: i <= k < |index| ==> !matches(index[k])
    decreases |index| - i
  {
    if i == |index| then None
    else if matches(index[i]) then Some(i)
    else FindFrom(index, matches, i + 1)
  }

  /** The first volume of the whole index that satisfies `matches`. */
  function First(index: seq<Volume>, matches: Volume -> bool): (r: Option<Volume>)
    ensures r.Some? ==> exists k ::
      0 <= k < |index| && index[k] == r.value && matches(r.value) &&
      (forall j :: 0 <= j < k ==> !matches(index[j]))
    ensures r.None? <==> forall k :: 0 <= k < |index| ==> !matches(index[k])
  {
    match FindFrom(index, matches, 0)
    case None => None
    case Some(k) => Some(index[k])
  }

  /** `volume_get_by_guid` matches the filesystem GUID or the partition GUID,
      each only when it is valid. */
  predicate GuidMatches(v: Volume, g: Guid)
  {
    (v.guid.Some? && v.guid.value == g) || (v.partGuid.Some? && v.partGuid.value == g)
  }

  /** `strcmp(fslabel, query) == 0`: the strings up to their terminators agree. */
  predicate LabelMatches(v: Volume, query: seq<byte>)
  {
    v.fsLabel.Some? && CString(v.fsLabel.value) == CString(query)
  }

  predicate CoordMatches(v: Volume, optical: bool, drive: int, partition: int)
  {
    v.index == drive && v.isOptical == optical && v.partition == partition
  }

  function VolumeGetByGuid(index: seq<Volume>, g: Guid): (r: Option<Volume>)
    ensures r.Some? ==> exists k ::
      0 <= k < |index| && index[k] == r.value && GuidMatches(r.value, g) &&
      (forall j :: 0 <= j < k ==> !GuidMatches(index[j], g))
    ensures r.None? <==> forall k :: 0 <= k < |index| ==> !GuidMatches(index[k], g)
  {
    First(index, v => GuidMatches(v, g))
  }

  function VolumeGetByFslabel(index: seq<Volume>, query: seq<byte>): (r: Option<Volume>)
    ensures r.Some? ==> exists k ::
      0 <= k < |index| && index[k] == r.value && LabelMatches(r.value, query) &&
      (forall j :: 0 <= j < k ==> !LabelMatches(index[j], query))
    ensures r.None? <==> forall k :: 0 <= k < |index| ==> !LabelMatches(index[k], query)
  {
    First(index, v => LabelMatches(v, query))
  }

  function VolumeGetByCoord(index: seq<Volume>, optical: bool, drive: int, partition: int): (r: Option<Volume>)
    ensures r.Some? ==> exists k ::
      0 <= k < |index| && index[k] == r.value && CoordMatches(r.value, optical, drive, partition) &&
      (forall j :: 0 <= j < k ==> !CoordMatches(index[j], optical, drive, partition))
    ensures r.None? <==> forall k :: 0 <= k < |index| ==> !CoordMatches(index[k], optical, drive, partition)
  {
    First(index, v => CoordMatches(v, optical, drive, partition))
  }

  /** The lookups return the earliest match: a matching volume placed at the
      front of the index is the one found, whatever follows. */
  lemma FirstMatchWins(index: seq<Volume>, v: Volume, optical: bool, drive: int, partition: int)
    requires CoordMatches(v, optical, drive, partition)
    ensures VolumeGetByCoord([v] + index, optical, drive, partition) == Some(v)
  {
    assert ([v] + index)[0] == v;
  }

  /** A volume registered after a match is never returned in its place:
      appending to the index does not change a successful lookup. */
  lemma {:induction false} FindFromAppend(index: seq<Volume>, extra: seq<Volume>, matches: Volume -> bool, i: nat)
    requires i <= |index| && FindFrom(index, matches, i).Some?
    ensures FindFrom(index + extra, matches, i) == FindFrom(index, matches, i)
    decreases |index| - i
  {
    assert (index + extra)[i] == index[i];
    if !matches(index[i]) {
      FindFromAppend(index, extra, matches, i + 1);
    }
  }

  lemma GuidLookupStable(index: seq<Volume>, extra: seq<Volume>, g: Guid)
    requires VolumeGetByGuid(index, g).Some?
    ensures VolumeGetByGuid(index + extra, g) == VolumeGetByGuid(index, g)
  {
    var m := (v: Volume) => GuidMatches(v, g);
    FindFromAppend(index, extra, m, 0);
    var k := FindFrom(index, m, 0).value;
    assert (index + extra)[k] == index[k];
  }
}
