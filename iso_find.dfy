/** `iso9660_find` (limine/common/fs/iso9660.s2.c:296-345): the walk over
    the records of a directory buffer in search of a name. The walk keeps
    the offset `buffer` and the remaining `size` with `buffer + size` equal
    to the length of the directory. */
module IsoFind {
  import opened Common
  import opened IsoRecords

  /** Where the walk goes on from a zero byte at `p` (the padding at the end
      of a sector): the remaining size is aligned down to a whole number of
      sectors, or lowered by one sector when it already is one; the walk
      ends when no more than one sector remains. */
  function PaddingSkip(d: seq<byte>, p: nat): (r: Option<nat>)
    requires p < |d|
    ensures r.Some? ==> p < r.value <= p + SECTOR_SIZE && r.value <= |d| && (|d| - r.value) % SECTOR_SIZE == 0
    ensures r.None? <==> |d| - p <= SECTOR_SIZE
  {
    var size := |d| - p;
    if size <= SECTOR_SIZE then None
    else
      var aligned := size - size % SECTOR_SIZE;
      if aligned == size then Some(p + SECTOR_SIZE) else Some(p + (size - aligned))
  }

  /** In a directory of whole sectors the padding skip lands on the next
      sector boundary, the place `iso9660_next_entry` goes to as well. */
  lemma PaddingToNextSector(d: seq<byte>, p: nat)
    requires p < |d| && |d| % SECTOR_SIZE == 0 && PaddingSkip(d, p).Some?
    ensures PaddingSkip(d, p).value == AlignUp(p + 1)
  {
    var r := PaddingSkip(d, p).value;
    ModOfDifference(|d|, r);
    SectorEq(r, AlignUp(p + 1));
  }

  /** Two multiples of the sector size less than a sector apart are equal. */
  lemma SectorEq(a: nat, b: nat)
    requires a % SECTOR_SIZE == 0 && b % SECTOR_SIZE == 0
    requires a < b + SECTOR_SIZE && b < a + SECTOR_SIZE
    ensures a == b
  {
  }

  lemma ModOfDifference(n: nat, r: nat)
    requires r <= n && n % SECTOR_SIZE == 0 && (n - r) % SECTOR_SIZE == 0
    ensures r % SECTOR_SIZE == 0
  {
    var q1, q2 := n / SECTOR_SIZE, (n - r) / SECTOR_SIZE;
    assert r == (q1 - q2) * SECTOR_SIZE;
  }

  /** Whether the name `load_name` gives a record matches the component
      sought: exactly for a Rock Ridge name unless the search ignores case,
      ignoring ASCII case otherwise; the comparison stops at a NUL in the
      loaded name. */
  predicate Matches(name: seq<byte>, n: Name, ci: bool)
  {
    if n.rockRidge && !ci then name == CString(n.text) else CaseEq(name, CString(n.text))
  }

  /** Whether the record at `p` is a whole record whose loaded name matches
      the component sought. */
  predicate RecordHit(d: seq<byte>, p: nat, name: seq<byte>, ci: bool)
  {
    WholeRecord(d, p) && Matches(name, LoadNameSpec(Record(d, p)), ci)
  }

  /** The same test as a function of the offset. */
  function Hits(d: seq<byte>, name: seq<byte>, ci: bool): nat -> bool
  {
    (p: nat) => RecordHit(d, p, name, ci)
  }

  /** The walk from offset `p` with the test `hit` for the records it
      reaches: the first whole record passing it, or None when a record's
      length overruns the rest of the buffer or is shorter than the fixed
      part, or when the buffer ends. */
  function Scan(d: seq<byte>, p: nat, hit: nat -> bool): (r: Option<nat>)
    requires p <= |d|
    ensures r.Some? ==> p <= r.value && WholeRecord(d, r.value)
    decreases |d| - p
  {
    if p == |d| then None
    else if d[p] == 0 then
      match PaddingSkip(d, p)
      case None => None
      case Some(q) => Scan(d, q, hit)
    else if d[p] as nat > |d| - p || (d[p] as nat) < HEADER then None
    else if hit(p) then Some(p)
    else Scan(d, p + d[p] as nat, hit)
  }

  /** The walk `iso9660_find` does in search of `name`. */
  function FindFrom(d: seq<byte>, p: nat, name: seq<byte>, ci: bool): (r: Option<nat>)
    requires p <= |d|
    ensures r.Some? ==> p <= r.value && WholeRecord(d, r.value)
  {
    Scan(d, p, Hits(d, name, ci))
  }

  /** What the walk finds passes the test. */
  lemma {:induction false} ScanFound(d: seq<byte>, p: nat, hit: nat -> bool)
    requires p <= |d| && Scan(d, p, hit).Some?
    ensures hit(Scan(d, p, hit).value)
    decreases |d| - p
  {
    if d[p] == 0 {
      ScanFound(d, PaddingSkip(d, p).value, hit);
    } else if !hit(p) {
      ScanFound(d, p + d[p] as nat, hit);
    }
  }

  /** What the walk finds is a record carrying the name sought. */
  lemma FindFound(d: seq<byte>, p: nat, name: seq<byte>, ci: bool)
    requires p <= |d| && FindFrom(d, p, name, ci).Some?
    ensures RecordHit(d, FindFrom(d, p, name, ci).value, name, ci)
  {
    ScanFound(d, p, Hits(d, name, ci));
    assert Hits(d, name, ci)(FindFrom(d, p, name, ci).value);
  }

  /** A record whose length overruns the rest of the buffer, or is shorter
      than the fixed part, ends the walk with nothing found. */
  lemma FindRejects(d: seq<byte>, p: nat, hit: nat -> bool)
    requires p < |d| && d[p] != 0
    requires d[p] as nat > |d| - p || (d[p] as nat) < HEADER
    ensures Scan(d, p, hit).None?
  {
  }

  /** A walk that finds a record at `q` returns it whenever it reaches it,
      so the walk from any record on the way to `q` finds `q`. */
  lemma {:induction false} FindStable(d: seq<byte>, p: nat, hit: nat -> bool)
    requires p <= |d| && Scan(d, p, hit).Some?
    ensures Scan(d, Scan(d, p, hit).value, hit) == Scan(d, p, hit)
    decreases |d| - p
  {
    if d[p] == 0 {
      PaddingStep(d, p, hit);
      FindStable(d, PaddingSkip(d, p).value, hit);
    } else if !hit(p) {
      RecordStep(d, p, hit);
      FindStable(d, p + d[p] as nat, hit);
    }
  }

  /** `iso9660_find`: every turn of the loop lowers `size`. */
  method Find(d: seq<byte>, name: seq<byte>, ci: bool) returns (r: Option<nat>)
    ensures r == FindFrom(d, 0, name, ci)
  {
    var buffer: nat, size: nat := 0, |d|;
    while size != 0
      invariant buffer + size == |d|
      invariant FindFrom(d, buffer, name, ci) == FindFrom(d, 0, name, ci)
      decreases size
    {
      var done;
      done, r, buffer, size := FindStep(d, buffer, size, name, ci);
      if done {
        return;
      }
    }
    return None;
  }

  /** One turn of the loop of `iso9660_find`: either the search ends with
      its result, or it goes on from a later offset with the same outcome. */
  method FindStep(d: seq<byte>, buffer: nat, size: nat, name: seq<byte>, ci: bool)
    returns (done: bool, r: Option<nat>, buffer': nat, size': nat)
    requires buffer + size == |d| && size != 0
    ensures done ==> r == FindFrom(d, buffer, name, ci)
    ensures !done ==> buffer' + size' == |d| && size' < size
    ensures !done ==> FindFrom(d, buffer', name, ci) == FindFrom(d, buffer, name, ci)
  {
    if d[buffer] == 0 {
      done, r, buffer', size' := PaddingTurn(d, buffer, size, name, ci);
    } else {
      done, r, buffer', size' := RecordTurn(d, buffer, size, name, ci);
    }
  }

  /** The turn at padding: the search ends when at most one sector remains,
      and goes on past the padding otherwise. */
  method PaddingTurn(d: seq<byte>, buffer: nat, size: nat, name: seq<byte>, ci: bool)
    returns (done: bool, r: Option<nat>, buffer': nat, size': nat)
    requires buffer + size == |d| && size != 0 && d[buffer] == 0
    ensures done ==> r == FindFrom(d, buffer, name, ci)
    ensures !done ==> buffer' + size' == |d| && size' < size
    ensures !done ==> FindFrom(d, buffer', name, ci) == FindFrom(d, buffer, name, ci)
  {
    if size <= SECTOR_SIZE {
      PaddingEnd(d, buffer, Hits(d, name, ci));
      return true, None, buffer, size;
    }
    buffer', size' := SkipPadding(d, buffer, size);
    PaddingStep(d, buffer, Hits(d, name, ci));
    return false, None, buffer', size';
  }

  /** The turn at a record: a malformed length ends the search, a matching
      record is the result, and the search goes on past any other. */
  method RecordTurn(d: seq<byte>, buffer: nat, size: nat, name: seq<byte>, ci: bool)
    returns (done: bool, r: Option<nat>, buffer': nat, size': nat)
    requires buffer + size == |d| && size != 0 && d[buffer] != 0
    ensures done ==> r == FindFrom(d, buffer, name, ci)
    ensures !done ==> buffer' + size' == |d| && size' < size
    ensures !done ==> FindFrom(d, buffer', name, ci) == FindFrom(d, buffer, name, ci)
  {
    var len := d[buffer] as nat;
    if len > size || len < HEADER {
      FindRejects(d, buffer, Hits(d, name, ci));
      return true, None, buffer, size;
    }
    done, r, buffer', size' := WholeRecordTurn(d, buffer, size, name, ci);
  }

  /** The turn at a record that lies whole in the buffer. */
  method WholeRecordTurn(d: seq<byte>, buffer: nat, size: nat, name: seq<byte>, ci: bool)
    returns (done: bool, r: Option<nat>, buffer': nat, size': nat)
    requires buffer + size == |d| && WholeRecord(d, buffer)
    ensures done ==> r == FindFrom(d, buffer, name, ci)
    ensures !done ==> buffer' + size' == |d| && size' < size
    ensures !done ==> FindFrom(d, buffer', name, ci) == FindFrom(d, buffer, name, ci)
  {
    var hit, next := CheckRecord(d, buffer, name, ci);
    if hit {
      FoundHere(d, buffer, name, ci);
      return true, Some(buffer), buffer, size;
    }
    SkipRecord(d, buffer, next, name, ci);
    return false, None, next, size - d[buffer] as nat;
  }

  /** The walk goes on past padding... */
  lemma PaddingStep(d: seq<byte>, p: nat, hit: nat -> bool)
    requires p < |d| && d[p] == 0 && PaddingSkip(d, p).Some?
    ensures Scan(d, p, hit) == Scan(d, PaddingSkip(d, p).value, hit)
  {
  }

  /** Padding with at most one sector left ends the walk... */
  lemma PaddingEnd(d: seq<byte>, p: nat, hit: nat -> bool)
    requires p < |d| && d[p] == 0 && |d| - p <= SECTOR_SIZE
    ensures Scan(d, p, hit).None?
  {
  }

  /** ... a whole record passing the test is the one found... */
  lemma FindHit(d: seq<byte>, p: nat, hit: nat -> bool)
    requires WholeRecord(d, p) && hit(p)
    ensures Scan(d, p, hit) == Some(p)
  {
  }

  /** ... and the walk goes on past a whole record that fails it. */
  lemma RecordStep(d: seq<byte>, p: nat, hit: nat -> bool)
    requires WholeRecord(d, p) && !hit(p)
    ensures Scan(d, p, hit) == Scan(d, p + d[p] as nat, hit)
  {
  }

  /** The search stops at a whole record carrying the name sought... */
  lemma FoundHere(d: seq<byte>, p: nat, name: seq<byte>, ci: bool)
    requires RecordHit(d, p, name, ci)
    ensures FindFrom(d, p, name, ci) == Some(p)
  {
    FindHit(d, p, Hits(d, name, ci));
  }

  /** ... and goes on past a whole record carrying another name. */
  lemma SkipRecord(d: seq<byte>, p: nat, next: nat, name: seq<byte>, ci: bool)
    requires WholeRecord(d, p) && !RecordHit(d, p, name, ci) && next == p + d[p] as nat
    ensures FindFrom(d, next, name, ci) == FindFrom(d, p, name, ci)
  {
    RecordStep(d, p, Hits(d, name, ci));
  }

  /** The padding step of `iso9660_find`. */
  method SkipPadding(d: seq<byte>, buffer: nat, size: nat) returns (buffer': nat, size': nat)
    requires buffer < |d| && buffer + size == |d| && size > SECTOR_SIZE
    ensures buffer' + size' == |d| && PaddingSkip(d, buffer) == Some(buffer')
  {
    var prev := size;
    size' := size - size % SECTOR_SIZE;
    // `size'` still exceeds one sector here, so the source's second test
    // of it cannot succeed and is not repeated.
    if prev == size' {
      size' := size' - SECTOR_SIZE;
      buffer' := buffer + SECTOR_SIZE;
    } else {
      buffer' := buffer + (prev - size');
    }
  }

  /** The record step of `iso9660_find`: the record at `p` is the one
      searched for, or the search goes on from the next record. */
  method CheckRecord(d: seq<byte>, p: nat, name: seq<byte>, ci: bool) returns (hit: bool, next: nat)
    requires WholeRecord(d, p)
    ensures hit == RecordHit(d, p, name, ci) && next == p + d[p] as nat
  {
    hit := RecordMatches(Record(d, p), name, ci);
    next := p + d[p] as nat;
  }

  /** Loading the name of a record and comparing it. */
  method RecordMatches(e: seq<byte>, name: seq<byte>, ci: bool) returns (hit: bool)
    requires |e| >= HEADER
    ensures hit == Matches(name, LoadNameSpec(e), ci)
  {
    var rr, text := LoadName(e);
    if rr && !ci {
      hit := name == CString(text);
    } else {
      hit := CaseEq(name, CString(text));
    }
  }
}
