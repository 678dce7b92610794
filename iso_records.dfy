/** Directory records of an ISO 9660 volume (ECMA-119, section 9.1) and the
    Rock Ridge alternate name (RRIP, section 4.1.4): the name `load_name`
    extracts from a record and the step `iso9660_next_entry` takes to the
    next record (limine/common/fs/iso9660.s2.c:175-294). A directory is the
    sequence of bytes of its buffer, and a record is named by its offset in
    that buffer. */
module IsoRecords {
  import opened Common

  /** `ISO9660_SECTOR_SIZE`. */
  const SECTOR_SIZE: nat := 2048
  /** `sizeof(struct iso9660_directory_entry)`: the fixed part of a record. */
  const HEADER: nat := 33
  /** `ISO9660_FLAG_MULTI_EXTENT`: the file goes on in the next record. */
  const MULTI_EXTENT: byte := 0x80
  /** The caller's name buffer (`entry_filename[256]` in `iso9660_find`). */
  const NAME_BUFFER: nat := 256

  const SEMICOLON: byte := 0x3b
  const DOT: byte := 0x2e
  const LETTER_N: byte := 0x4e
  const LETTER_M: byte := 0x4d

  /** The fixed part of the record at `p` lies inside the buffer. */
  predicate HasHeader(d: seq<byte>, p: nat)
  {
    p + HEADER <= |d|
  }

  /** A whole record at `p`: at least as long as its fixed part, and inside
      the buffer. */
  predicate WholeRecord(d: seq<byte>, p: nat)
  {
    p < |d| && HEADER <= d[p] as nat && p + d[p] as nat <= |d|
  }

  /** The bytes of the whole record at `p`. */
  function Record(d: seq<byte>, p: nat): (e: seq<byte>)
    requires WholeRecord(d, p)
    ensures |e| == d[p] as nat && |e| >= HEADER && e == d[p .. p + |e|]
  {
    d[p .. p + d[p] as nat]
  }

  /** `extent.little`: the first sector of the record's data. */
  function ExtentLba(d: seq<byte>, p: nat): (r: nat)
    requires HasHeader(d, p)
    ensures r <= U32_MAX
  {
    LE32(d, p + 2)
  }

  /** `extent_size.little`: the length of the record's data in bytes. */
  function ExtentBytes(d: seq<byte>, p: nat): (r: nat)
    requires HasHeader(d, p)
    ensures r <= U32_MAX
  {
    LE32(d, p + 10)
  }

  /** The multi-extent bit of the record's flags. */
  predicate MultiExtent(d: seq<byte>, p: nat)
    requires HasHeader(d, p)
  {
    d[p + 25] >= MULTI_EXTENT
  }

  // ------------------------------------------------------------------ names

  /** The name `load_name` leaves in the buffer, and whether it came from a
      Rock Ridge "NM" entry. */
  datatype Name = Name(rockRidge: bool, text: seq<byte>)

  /** Where the ISO identifier `f` is cut: at a ';' (the version number
      follows) or at a '.' right before one (a name without extension). */
  predicate CutsAt(f: seq<byte>, k: nat)
    requires k < |f|
  {
    f[k] == SEMICOLON || (f[k] == DOT && k + 1 < |f| && f[k + 1] == SEMICOLON)
  }

  /** The first position at or after `j` where the identifier is cut, or
      its length. */
  function NameCut(f: seq<byte>, j: nat): (r: nat)
    requires j <= |f|
    ensures j <= r <= |f|
    ensures forall k :: j <= k < r ==> !CutsAt(f, k)
    ensures r < |f| ==> CutsAt(f, r)
    decreases |f| - j
  {
    if j == |f| then j else if CutsAt(f, j) then j else NameCut(f, j + 1)
  }

  /** The bytes of the identifier `load_name` may read: `filename_size`,
      clamped to what the record's `length` leaves after the fixed part. */
  function IdentifierLength(e: seq<byte>): (r: nat)
    requires |e| >= HEADER
    ensures r <= e[32] as nat && HEADER + r <= |e|
    ensures HEADER + e[32] as nat <= |e| ==> r == e[32] as nat
  {
    if |e| < HEADER + e[32] as nat then
      if |e| <= HEADER then 0 else |e| - HEADER
    else e[32] as nat
  }

  /** The fallback name: the ISO identifier without its version suffix. */
  function IsoName(e: seq<byte>): (r: seq<byte>)
    requires |e| >= HEADER
    ensures |r| <= IdentifierLength(e)
  {
    var f := e[HEADER .. HEADER + IdentifierLength(e)];
    f[..NameCut(f, 0)]
  }

  /** The system-use area of the record `e`: what follows the identifier,
      less the padding byte after an identifier of even length; None when
      the record leaves no room for it. */
  function SystemUse(e: seq<byte>): (r: Option<seq<byte>>)
    requires |e| >= HEADER
    ensures r.Some? ==> |r.value| <= |e| - HEADER - e[32] as nat
  {
    var start := HEADER + e[32] as nat;
    if |e| < start then None
    else if e[32] % 2 == 0 then
      if |e| == start then None else Some(e[start + 1..])
    else Some(e[start..])
  }

  /** The name of the first "NM" entry of a system-use area, when the walk
      over the entries reaches one whose length exceeds its five-byte head.
      The walk stops at an entry whose version byte is not 1, at one that
      overruns the area and at one of length 0. */
  function RockRidgeName(sys: seq<byte>): (r: Option<seq<byte>>)
    ensures r.Some? ==> 0 < |r.value| && |r.value| + 5 <= |sys| && |r.value| + 5 <= 255
    decreases |sys|
  {
    if |sys| < 4 || sys[3] != 1 || sys[2] as nat > |sys| then None
    else if sys[0] == LETTER_N && sys[1] == LETTER_M then
      if sys[2] > 5 then Some(sys[5 .. sys[2]]) else None
    else if sys[2] == 0 then None
    else RockRidgeName(sys[sys[2]..])
  }

  /** `load_name` on the record `e`: the Rock Ridge name when there is one,
      otherwise the ISO identifier cut before its version. Either fits the
      256-byte buffer with its terminator, so the source's length checks
      never fire. */
  function LoadNameSpec(e: seq<byte>): (r: Name)
    requires |e| >= HEADER
    ensures r.rockRidge ==> 0 < |r.text| < NAME_BUFFER
    ensures !r.rockRidge ==> r.text == IsoName(e) && |r.text| < NAME_BUFFER
  {
    match SystemUse(e)
    case Some(sys) =>
      (match RockRidgeName(sys)
       case Some(n) => Name(true, n)
       case None => Name(false, IsoName(e)))
    case None => Name(false, IsoName(e))
  }

  /** `load_name`: looks for a Rock Ridge "NM" entry in the system-use area,
      and otherwise copies the ISO identifier up to its version suffix. `e`
      holds the `length` bytes of the record. */
  method LoadName(e: seq<byte>) returns (rr: bool, text: seq<byte>)
    requires |e| >= HEADER
    ensures Name(rr, text) == LoadNameSpec(e)
  {
    var start := HEADER + e[32] as nat;
    var hasArea := |e| >= start;
    if hasArea && e[32] % 2 == 0 {
      if |e| == start {
        hasArea := false;
      } else {
        start := start + 1;
      }
    }
    if hasArea {
      assert SystemUse(e) == Some(e[start..]);
      var nm := ScanSystemUse(e[start..]);
      if nm.Some? {
        return true, nm.value;
      }
    }
    text := IsoIdentifier(e);
    return false, text;
  }

  /** The walk of `load_name` over the entries of a system-use area. */
  method ScanSystemUse(sys: seq<byte>) returns (r: Option<seq<byte>>)
    ensures r == RockRidgeName(sys)
  {
    var at := 0;
    var rrLen: nat := 0;
    var nmAt: Option<nat> := None;
    while |sys| - at >= 4 && sys[at + 3] == 1
      invariant at <= |sys|
      invariant RockRidgeName(sys[at..]) == RockRidgeName(sys)
      invariant nmAt.None? && rrLen == 0
      decreases |sys| - at
    {
      var len := sys[at + 2] as nat;
      var rest := sys[at..];
      assert rest[2] as nat == len && rest[3] == 1;
      if len > |sys| - at {
        break;
      }
      if sys[at] == LETTER_N && sys[at + 1] == LETTER_M {
        if len >= 5 {
          rrLen := len - 5;
          nmAt := Some(at);
          assert rest[5 .. len] == sys[at + 5 .. at + 5 + rrLen];
        }
        break;
      }
      if len == 0 {
        break;
      }
      assert rest[len..] == sys[at + len..];
      at := at + len;
    }
    assert |sys[at..]| == |sys| - at;
    if rrLen > 0 && nmAt.Some? {
      return Some(sys[nmAt.value + 5 .. nmAt.value + 5 + rrLen]);
    }
    return None;
  }

  /** The copy loop of `load_name`'s fallback. */
  method IsoIdentifier(e: seq<byte>) returns (text: seq<byte>)
    requires |e| >= HEADER
    ensures text == IsoName(e)
  {
    var nameLen := e[32] as nat;
    if |e| < HEADER + nameLen {
      nameLen := if |e| <= HEADER then 0 else |e| - HEADER;
    }
    ghost var f := e[HEADER .. HEADER + nameLen];
    var j := 0;
    text := [];
    while j < nameLen
      invariant j <= nameLen && text == f[..j]
      invariant NameCut(f, j) == NameCut(f, 0)
    {
      if e[HEADER + j] == SEMICOLON {
        break;
      }
      if e[HEADER + j] == DOT && j + 1 < nameLen && e[HEADER + j + 1] == SEMICOLON {
        break;
      }
      text := text + [e[HEADER + j]];
      j := j + 1;
    }
  }

  /** The version number of an identifier is dropped: `NAME;1` reads NAME
      when NAME holds no ';' and does not end in '.'. */
  lemma VersionDropped(base: seq<byte>, version: seq<byte>)
    requires forall k :: 0 <= k < |base| ==> base[k] != SEMICOLON
    requires |base| > 0 ==> base[|base| - 1] != DOT
    ensures var f := base + [SEMICOLON] + version; NameCut(f, 0) == |base| && f[..|base|] == base
  {
    var f := base + [SEMICOLON] + version;
    assert CutsAt(f, |base|);
    forall k | 0 <= k < |base|
      ensures !CutsAt(f, k)
    {
      assert f[k] == base[k];
      if k + 1 < |base| {
        assert f[k + 1] == base[k + 1];
      }
    }
    NameCutFirst(f, 0, |base|);
  }

  /** The '.' that ends a name without extension goes with the version:
      `NAME.;1` reads NAME when NAME holds no ';'. */
  lemma EmptyExtensionDropped(base: seq<byte>, version: seq<byte>)
    requires forall k :: 0 <= k < |base| ==> base[k] != SEMICOLON
    ensures var f := base + [DOT, SEMICOLON] + version; NameCut(f, 0) == |base| && f[..|base|] == base
  {
    var f := base + [DOT, SEMICOLON] + version;
    assert CutsAt(f, |base|);
    forall k | 0 <= k < |base|
      ensures !CutsAt(f, k)
    {
      assert f[k] == base[k];
      assert f[k + 1] == if k + 1 < |base| then base[k + 1] else DOT;
    }
    NameCutFirst(f, 0, |base|);
  }

  /** The cut is the first cutting position. */
  lemma {:induction false} NameCutFirst(f: seq<byte>, j: nat, c: nat)
    requires j <= c < |f| && CutsAt(f, c)
    requires forall k :: j <= k < c ==> !CutsAt(f, k)
    ensures NameCut(f, j) == c
    decreases c - j
  {
    if j < c {
      NameCutFirst(f, j + 1, c);
    }
  }

  /** An "NM" entry: the two letters, its length, version 1, the flags
      byte, then the name. */
  function NmEntry(name: seq<byte>, flags: byte): (r: seq<byte>)
    requires |name| + 5 <= 255
    ensures |r| == |name| + 5
  {
    [LETTER_N, LETTER_M, (|name| + 5) as byte, 1, flags] + name
  }

  /** A name stored in an "NM" entry at the head of the system-use area is
      the name read back. */
  lemma NmEntryRead(name: seq<byte>, flags: byte, rest: seq<byte>)
    requires 0 < |name| && |name| + 5 <= 255
    ensures RockRidgeName(NmEntry(name, flags) + rest) == Some(name)
  {
    var s := NmEntry(name, flags) + rest;
    assert s[0] == LETTER_N && s[1] == LETTER_M && s[2] as nat == |name| + 5 && s[3] == 1;
    assert s[5 .. s[2]] == name;
  }

  /** Another kind of entry ahead of it is stepped over. */
  lemma OtherEntrySkipped(other: seq<byte>, rest: seq<byte>)
    requires 4 <= |other| <= 255 && other[2] as nat == |other| && other[3] == 1
    requires !(other[0] == LETTER_N && other[1] == LETTER_M)
    ensures RockRidgeName(other + rest) == RockRidgeName(rest)
  {
    var s := other + rest;
    assert s[..4] == other[..4];
    assert s[other[2]..] == rest;
  }

  // ---------------------------------------------------------- the next record

  /** `ALIGN_UP(x, ISO9660_SECTOR_SIZE)`. Directory buffers begin on a
      sector boundary, so aligning an address and aligning the offset it
      has in its buffer agree. */
  function AlignUp(x: nat): (r: nat)
    ensures r % SECTOR_SIZE == 0 && x <= r < x + SECTOR_SIZE
  {
    ((x + SECTOR_SIZE - 1) / SECTOR_SIZE) * SECTOR_SIZE
  }

  /** `iso9660_next_entry` as written: the record after the one at `p`,
      past the zero padding at the end of a sector. It checks that the next
      record starts inside the buffer and, except right after a padding
      byte at `p`, that it is at least as long as the fixed part. */
  function NextEntryAsWritten(d: seq<byte>, p: nat): (r: Option<nat>)
    requires p < |d|
    ensures r.Some? ==> p < r.value < |d| && d[r.value] != 0
    ensures r.Some? && r.value != p + d[p] as nat ==>
      r.value % SECTOR_SIZE == 0 && r.value < p + d[p] as nat + 1 + SECTOR_SIZE &&
      (d[p] == 0 || (p + d[p] as nat < |d| && d[p + d[p] as nat] == 0))
    ensures r.Some? && d[p] != 0 ==> HEADER <= d[r.value] as nat
  {
    if d[p] == 0 then
      var q := AlignUp(p + 1);
      if q >= |d| || d[q] == 0 then None else Some(q)
    else
      var n := p + d[p] as nat;
      if n >= |d| then None
      else if d[n] == 0 then
        var q := AlignUp(n + 1);
        if q >= |d| || d[q] == 0 then None
        else if (d[q] as nat) < HEADER then None
        else Some(q)
      else if (d[n] as nat) < HEADER then None
      else Some(n)
  }

  /** The record `iso9660_next_entry` returns can run past the end of the
      buffer, and `iso9660_open` then reads its extent and flags there: a
      40-byte directory whose first record is 33 bytes long and whose
      second record claims 33 bytes. */
  lemma NextEntryOverrun()
    ensures var d := seq(40, k => if k == 0 || k == 33 then 33 else 0);
      NextEntryAsWritten(d, 0) == Some(33) && !HasHeader(d, 33)
  {
    var d := seq(40, k => if k == 0 || k == 33 then 33 else 0);
    assert d[0] == 33 && d[33] == 33;
  }

  /** The next record, refused unless it lies wholly inside the buffer and
      is at least as long as the fixed part, which is what `iso9660_find`
      demands of every record it looks at. */
  function NextEntry(d: seq<byte>, p: nat): (r: Option<nat>)
    requires p < |d|
    ensures r.Some? ==> p < r.value && WholeRecord(d, r.value)
  {
    match NextEntryAsWritten(d, p)
    case None => None
    case Some(q) => if WholeRecord(d, q) then Some(q) else None
  }

  /** The checked step agrees with the step as written whenever the record
      reached is whole. */
  lemma NextEntryAgrees(d: seq<byte>, p: nat)
    requires p < |d|
    ensures NextEntry(d, p).Some? ==> NextEntry(d, p) == NextEntryAsWritten(d, p)
    ensures NextEntryAsWritten(d, p).Some? && WholeRecord(d, NextEntryAsWritten(d, p).value) ==>
      NextEntry(d, p) == NextEntryAsWritten(d, p)
  {
  }
}
