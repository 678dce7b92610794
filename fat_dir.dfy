/** The scan of a loaded FAT directory in `fat32_open_in`
    (limine/common/fs/fat32.s2.c:486-580): the volume-label search, the
    long-name buffer kept across long-name entries, and the long- and
    short-name matches. */
module FatDir {
  import opened Common
  import opened FatNames

  const ENTRY_SIZE: nat := 32
  const LFN_ATTRIBUTE: byte := 0x0F
  const VOLLABEL_ATTRIBUTE: byte := 0x08
  const DELETED: byte := 0xE5
  /** `FAT32_LFN_MAX_ENTRIES * 13`: the first position past the longest name. */
  const LFN_NAME_MAX: nat := 20 * 13

  /** Entry `i` of a directory image: 32 bytes, name at 0..10, attribute at 11. */
  function EntryAt(dir: seq<byte>, i: nat): (e: seq<byte>)
    requires ENTRY_SIZE * (i + 1) <= |dir|
    ensures |e| == ENTRY_SIZE
  {
    dir[ENTRY_SIZE * i .. ENTRY_SIZE * (i + 1)]
  }

  // --------------------------------------------------------------- long names

  /** Bit 6 of the sequence number: the entry holding the end of the name,
      which comes first and starts a fresh buffer. */
  predicate StartsName(e: seq<byte>)
    requires |e| == ENTRY_SIZE
  {
    (e[0] / 64) % 2 == 1
  }

  /** The low five bits of the sequence number. */
  function SequenceNumber(e: seq<byte>): (r: nat)
    requires |e| == ENTRY_SIZE
    ensures r < 32
  {
    e[0] % 32
  }

  /** The buffer after the 13 characters of a long-name entry are stored at
      `idx`: five from bytes 1..10, six from 14..25, two from 28..31. */
  function Fragments(l: seq<byte>, e: seq<byte>, idx: nat): (r: seq<byte>)
    requires |e| == ENTRY_SIZE
    ensures |r| == |l|
  {
    LfnPut(LfnPut(LfnPut(l, idx, e[1..11], 5), idx + 5, e[14..26], 6), idx + 11, e[28..32], 2)
  }

  /** The buffer with a NUL written just after its last non-space character
      among the first 260 (at position 0 when all of them are spaces). */
  function Terminated(l: seq<byte>): (r: seq<byte>)
    requires |l| == LFN_BUFFER
    ensures |r| == LFN_BUFFER
  {
    l[|TrimRightSpaces(l[..LFN_NAME_MAX])| := 0]
  }

  /** The long-name buffer after one long-name entry has been processed. */
  function LfnAfter(l: seq<byte>, e: seq<byte>): (r: seq<byte>)
    requires |l| == LFN_BUFFER && |e| == ENTRY_SIZE
    ensures |r| == LFN_BUFFER
  {
    var cleared := if StartsName(e) then Fill(LFN_BUFFER, SPACE) else l;
    var s := SequenceNumber(e);
    if s == 0 || (s - 1) * 13 >= LFN_NAME_MAX then cleared
    else if s != 1 then Fragments(cleared, e, (s - 1) * 13)
    else Terminated(Fragments(cleared, e, 0))
  }

  /** The low bytes of the 13 characters of a long-name entry, in order. */
  function LfnChars(e: seq<byte>): (r: seq<byte>)
    requires |e| == ENTRY_SIZE
    ensures |r| == 13
  {
    [e[1], e[3], e[5], e[7], e[9], e[14], e[16], e[18], e[20], e[22], e[24], e[28], e[30]]
  }

  /** The length of the space-trimmed prefix is the position just past the
      last non-space. */
  lemma TrimLength(s: seq<byte>, m: nat)
    requires m <= |s| && (m == 0 || s[m - 1] != SPACE)
    requires forall k :: m <= k < |s| ==> s[k] == SPACE
    ensures |TrimRightSpaces(s)| == m
  {
  }

  /** Trailing spaces added to a string do not survive the trim. */
  lemma TrimPadded(s: seq<byte>, n: nat)
    ensures TrimRightSpaces(s + Fill(n, SPACE)) == TrimRightSpaces(s)
  {
    var t := TrimRightSpaces(s);
    var p := s + Fill(n, SPACE);
    TrimLength(p, |t|);
    assert TrimRightSpaces(p) == p[..|t|];
    assert p[..|t|] == s[..|t|];
  }

  /** The characters of a buffer with a NUL stored at `m` are those of its
      first `m` bytes. */
  lemma CStringCut(s: seq<byte>, m: nat)
    requires m < |s|
    ensures CString(s[m := 0]) == CString(s[..m])
    decreases m
  {
    if m > 0 && s[0] != 0 {
      CStringCut(s[1..], m - 1);
      assert s[m := 0][1..] == s[1..][m - 1 := 0];
      assert s[..m][1..] == s[1..][..m - 1];
    }
  }

  /** The name compared against is the buffer's first 260 characters with
      trailing spaces removed, up to the first NUL. */
  lemma TerminatedName(l: seq<byte>)
    requires |l| == LFN_BUFFER
    ensures CString(Terminated(l)) == CString(TrimRightSpaces(l[..LFN_NAME_MAX]))
  {
    var t := TrimRightSpaces(l[..LFN_NAME_MAX]);
    CStringCut(l, |t|);
    assert l[..|t|] == t;
  }

  /** The entry with sequence number 1 puts its 13 characters at the front
      of the buffer and leaves the rest alone. */
  lemma FirstFragment(l: seq<byte>, e: seq<byte>)
    requires |l| == LFN_BUFFER && |e| == ENTRY_SIZE
    ensures forall k :: 0 <= k < 13 ==> Fragments(l, e, 0)[k] == LfnChars(e)[k]
    ensures forall k :: 13 <= k < |l| ==> Fragments(l, e, 0)[k] == l[k]
  {
    var a := LfnPut(l, 0, e[1..11], 5);
    var b := LfnPut(a, 5, e[14..26], 6);
    var c := LfnPut(b, 11, e[28..32], 2);
    assert forall k :: 0 <= k < 5 ==> a[k] == e[1 + 2 * k];
    assert forall k :: 5 <= k < 11 ==> b[k] == e[14 + 2 * (k - 5)];
    assert forall k :: 11 <= k < 13 ==> c[k] == e[28 + 2 * (k - 11)];
  }

  /** The name carried by a one-entry long name (sequence byte 0x41): its 13
      characters with trailing spaces removed, up to the first NUL, whatever
      the buffer held before. */
  lemma SingleEntryName(l: seq<byte>, e: seq<byte>)
    requires |l| == LFN_BUFFER && |e| == ENTRY_SIZE && e[0] == 0x41
    ensures CString(LfnAfter(l, e)) == CString(TrimRightSpaces(LfnChars(e)))
  {
    var blank := Fill(LFN_BUFFER, SPACE);
    var f := Fragments(blank, e, 0);
    assert StartsName(e) && SequenceNumber(e) == 1;
    assert LfnAfter(l, e) == Terminated(f);
    FirstFragment(blank, e);
    var padded := LfnChars(e) + Fill(LFN_NAME_MAX - 13, SPACE);
    assert f[..LFN_NAME_MAX] == padded;
    TrimPadded(LfnChars(e), LFN_NAME_MAX - 13);
    TerminatedName(f);
    assert TrimRightSpaces(f[..LFN_NAME_MAX]) == TrimRightSpaces(LfnChars(e));
  }

  // ------------------------------------------------------------- volume label

  /** The 12-byte label buffer: the 11 name bytes with trailing spaces turned
      into NULs, then a NUL. */
  function LabelOf(e: seq<byte>): (r: seq<byte>)
    requires |e| == ENTRY_SIZE
  {
    var t := TrimRightSpaces(e[..11]);
    t + Fill(12 - |t|, 0)
  }

  /** The label read back from its buffer is the space-trimmed name. */
  lemma LabelOfName(e: seq<byte>)
    requires |e| == ENTRY_SIZE && NulFree(e[..11])
    ensures |LabelOf(e)| == 12 && LabelOf(e)[11] == 0
    ensures CString(LabelOf(e)) == TrimRightSpaces(e[..11])
  {
    var t := TrimRightSpaces(e[..11]);
    var r := LabelOf(e);
    CStringCut(r, |t|);
    assert r[|t| := 0] == r;
    assert r[..|t|] == t;
    assert forall k :: 0 <= k < |t| ==> t[k] == e[k];
    CStringOfNulFree(t);
  }

  lemma CStringOfNulFree(s: seq<byte>)
    requires NulFree(s)
    ensures CString(s) == s
  {
  }

  /** `fat32_open_in` with no name: the first live entry whose attribute is
      exactly the volume-label attribute. */
  function LabelFrom(dir: seq<byte>, n: nat, i: nat): Option<seq<byte>>
    requires ENTRY_SIZE * n <= |dir|
    decreases n - i
  {
    if i >= n then None
    else
      var e := EntryAt(dir, i);
      if e[0] == 0 then None
      else if e[11] == VOLLABEL_ATTRIBUTE then Some(LabelOf(e))
      else LabelFrom(dir, n, i + 1)
  }

  /** A label comes from the first volume-label entry, and no
      end-of-directory marker precedes it. */
  lemma {:induction false} LabelFound(dir: seq<byte>, n: nat, i: nat, text: seq<byte>) returns (k: nat)
    requires ENTRY_SIZE * n <= |dir|
    requires LabelFrom(dir, n, i) == Some(text)
    ensures i <= k < n
    ensures EntryAt(dir, k)[11] == VOLLABEL_ATTRIBUTE && text == LabelOf(EntryAt(dir, k))
    ensures forall j :: i <= j <= k ==> EntryAt(dir, j)[0] != 0
    ensures forall j :: i <= j < k ==> EntryAt(dir, j)[11] != VOLLABEL_ATTRIBUTE
    decreases n - i
  {
    var e := EntryAt(dir, i);
    if e[11] == VOLLABEL_ATTRIBUTE {
      k := i;
    } else {
      k := LabelFound(dir, n, i + 1, text);
    }
  }

  // ------------------------------------------------------------ name lookup

  /** A short-name entry matches when it is not a label or long-name entry
      and its 11 name bytes are the 8.3 form of the name. */
  predicate ShortNameMatch(e: seq<byte>, name: seq<byte>)
    requires |e| == ENTRY_SIZE
  {
    (e[11] / 8) % 2 == 0 && Is83(name) && e[..11] == Name83(name)
  }

  /** After a matching long name, the entry that follows must exist and be a
      live short-name entry. */
  function EntryAfterLfn(dir: seq<byte>, n: nat, i: nat): Option<seq<byte>>
    requires ENTRY_SIZE * n <= |dir|
  {
    if i + 1 >= n then None
    else
      var s := EntryAt(dir, i + 1);
      if s[0] == 0 || s[0] == DELETED || s[11] == LFN_ATTRIBUTE then None else Some(s)
  }

  /** `fat32_open_in` with a name, from entry `i` on with long-name buffer `l`. */
  function LookupFrom(dir: seq<byte>, n: nat, i: nat, l: seq<byte>, name: seq<byte>, ci: bool): (r: Option<seq<byte>>)
    requires ENTRY_SIZE * n <= |dir| && |l| == LFN_BUFFER
    ensures r.Some? ==> |r.value| == ENTRY_SIZE
    decreases n - i
  {
    if i >= n then None
    else
      var e := EntryAt(dir, i);
      if e[0] == 0 then None
      else if e[11] == LFN_ATTRIBUTE then
        var l' := LfnAfter(l, e);
        if SequenceNumber(e) == 1 && NameEq(CString(l'), name, ci) then EntryAfterLfn(dir, n, i)
        else LookupFrom(dir, n, i + 1, l', name, ci)
      else if ShortNameMatch(e, name) then Some(e)
      else LookupFrom(dir, n, i + 1, l, name, ci)
  }

  /** The whole scan of a directory image, in either mode. */
  function DirScan(dir: seq<byte>, name: Option<seq<byte>>, ci: bool): (r: Option<seq<byte>>)
    ensures name.Some? && r.Some? ==> |r.value| == ENTRY_SIZE
  {
    var n := |dir| / ENTRY_SIZE;
    match name
    case None => LabelFrom(dir, n, 0)
    case Some(nm) => LookupFrom(dir, n, 0, Fill(LFN_BUFFER, 0), nm, ci)
  }

  /** The long-name buffer the scan holds on reaching entry `j`, having
      started at entry `i` with buffer `l`: each long-name entry on the way
      is folded in, every other entry leaves it alone. */
  function BufferAt(dir: seq<byte>, i: nat, l: seq<byte>, j: nat): (r: seq<byte>)
    requires i <= j && ENTRY_SIZE * j <= |dir| && |l| == LFN_BUFFER
    ensures |r| == LFN_BUFFER
    decreases j - i
  {
    if i == j then l
    else
      var e := EntryAt(dir, i);
      BufferAt(dir, i + 1, if e[11] == LFN_ATTRIBUTE then LfnAfter(l, e) else l, j)
  }

  /** Past an entry, the buffer is the one that entry leaves. */
  lemma BufferPast(dir: seq<byte>, i: nat, l: seq<byte>, k: nat)
    requires i < k && ENTRY_SIZE * k <= |dir| && |l| == LFN_BUFFER
    ensures var e := EntryAt(dir, i);
      BufferAt(dir, i, l, k) == BufferAt(dir, i + 1, if e[11] == LFN_ATTRIBUTE then LfnAfter(l, e) else l, k)
  {
  }

  /** Entry `k` follows a long-name entry with sequence number 1, is not a
      deleted entry, and the long name gathered up to it matches. */
  predicate AfterLongName(dir: seq<byte>, n: nat, i: nat, l: seq<byte>, k: nat, name: seq<byte>, ci: bool)
    requires ENTRY_SIZE * n <= |dir| && |l| == LFN_BUFFER && i < k < n
  {
    var p := EntryAt(dir, k - 1);
    p[11] == LFN_ATTRIBUTE && SequenceNumber(p) == 1 && EntryAt(dir, k)[0] != DELETED &&
    NameEq(CString(BufferAt(dir, i, l, k)), name, ci)
  }

  /** Entry `k`, found by a scan from entry `i` with buffer `l`, is a live
      entry that is not part of a long name, no end-of-directory marker
      comes at or before it, and either its 8.3 name matches or it follows
      a long name that matched. */
  predicate FoundAt(dir: seq<byte>, n: nat, i: nat, l: seq<byte>, name: seq<byte>, ci: bool, f: seq<byte>, k: nat)
    requires ENTRY_SIZE * n <= |dir| && |l| == LFN_BUFFER
  {
    i <= k < n && f == EntryAt(dir, k) && f[0] != 0 && f[11] != LFN_ATTRIBUTE &&
    (forall j :: i <= j <= k ==> EntryAt(dir, j)[0] != 0) &&
    (ShortNameMatch(f, name) || (i < k && AfterLongName(dir, n, i, l, k, name, ci)))
  }

  /** A find from entry `i + 1` is one from entry `i` when entry `i` is
      live and carries the buffer along. */
  lemma FoundShift(dir: seq<byte>, n: nat, i: nat, l: seq<byte>, l': seq<byte>, name: seq<byte>, ci: bool,
                   f: seq<byte>, k: nat)
    requires ENTRY_SIZE * n <= |dir| && |l| == LFN_BUFFER && |l'| == LFN_BUFFER && i < n
    requires EntryAt(dir, i)[0] != 0 && FoundAt(dir, n, i + 1, l', name, ci, f, k)
    requires BufferAt(dir, i, l, k) == BufferAt(dir, i + 1, l', k)
    ensures FoundAt(dir, n, i, l, name, ci, f, k)
  {
  }

  /** The entry just after a matching long-name entry with sequence
      number 1 is found there. */
  lemma FoundAfterLfn(dir: seq<byte>, n: nat, i: nat, l: seq<byte>, name: seq<byte>, ci: bool, f: seq<byte>)
    requires ENTRY_SIZE * n <= |dir| && |l| == LFN_BUFFER && i < n
    requires EntryAt(dir, i)[0] != 0 && EntryAt(dir, i)[11] == LFN_ATTRIBUTE && SequenceNumber(EntryAt(dir, i)) == 1
    requires NameEq(CString(LfnAfter(l, EntryAt(dir, i))), name, ci)
    requires EntryAfterLfn(dir, n, i) == Some(f)
    ensures FoundAt(dir, n, i, l, name, ci, f, i + 1)
  {
    var e := EntryAt(dir, i);
    assert f == EntryAt(dir, i + 1) && f[0] != 0;
    BufferPast(dir, i, l, i + 1);
    assert BufferAt(dir, i + 1, LfnAfter(l, e), i + 1) == LfnAfter(l, e);
    assert AfterLongName(dir, n, i, l, i + 1, name, ci);
    forall j | i <= j <= i + 1
      ensures EntryAt(dir, j)[0] != 0
    {
      if j != i {
        assert j == i + 1;
      }
    }
  }

  /** What a lookup returns is a live short-name entry that no end marker
      precedes: either one whose 8.3 name matches, or the one just after a
      long-name entry whose gathered name matches. */
  lemma {:induction false} LookupFound(dir: seq<byte>, n: nat, i: nat, l: seq<byte>, name: seq<byte>, ci: bool,
                                       f: seq<byte>) returns (k: nat)
    requires ENTRY_SIZE * n <= |dir| && |l| == LFN_BUFFER
    requires LookupFrom(dir, n, i, l, name, ci) == Some(f)
    ensures FoundAt(dir, n, i, l, name, ci, f, k)
    decreases n - i, 1
  {
    var e := EntryAt(dir, i);
    if e[11] == LFN_ATTRIBUTE {
      k := LookupFoundLong(dir, n, i, l, name, ci, f);
    } else if ShortNameMatch(e, name) {
      k := i;
    } else {
      k := LookupFound(dir, n, i + 1, l, name, ci, f);
      BufferPast(dir, i, l, k);
      FoundShift(dir, n, i, l, l, name, ci, f, k);
    }
  }

  lemma {:induction false} LookupFoundLong(dir: seq<byte>, n: nat, i: nat, l: seq<byte>, name: seq<byte>, ci: bool,
                                           f: seq<byte>) returns (k: nat)
    requires ENTRY_SIZE * n <= |dir| && |l| == LFN_BUFFER && i < n
    requires EntryAt(dir, i)[11] == LFN_ATTRIBUTE
    requires LookupFrom(dir, n, i, l, name, ci) == Some(f)
    ensures FoundAt(dir, n, i, l, name, ci, f, k)
    decreases n - i, 0
  {
    var e := EntryAt(dir, i);
    var l' := LfnAfter(l, e);
    if SequenceNumber(e) == 1 && NameEq(CString(l'), name, ci) {
      k := i + 1;
      assert EntryAfterLfn(dir, n, i) == Some(f);
      FoundAfterLfn(dir, n, i, l, name, ci, f);
    } else {
      k := LookupFound(dir, n, i + 1, l', name, ci, f);
      BufferPast(dir, i, l, k);
      FoundShift(dir, n, i, l, l', name, ci, f, k);
    }
  }

  /** Nothing after an end-of-directory marker is looked at: the lookup
      gives the same result on the directory cut at the marker. */
  lemma {:induction false} LookupStopsAtEnd(dir: seq<byte>, n: nat, i: nat, l: seq<byte>, name: seq<byte>, ci: bool, m: nat)
    requires ENTRY_SIZE * n <= |dir| && |l| == LFN_BUFFER && i <= m < n
    requires EntryAt(dir, m)[0] == 0
    ensures LookupFrom(dir, n, i, l, name, ci) == LookupFrom(dir, m, i, l, name, ci)
    decreases m - i
  {
    if i < m {
      var e := EntryAt(dir, i);
      if e[0] != 0 {
        if e[11] == LFN_ATTRIBUTE {
          LookupStopsAtEnd(dir, n, i + 1, LfnAfter(l, e), name, ci, m);
        } else {
          LookupStopsAtEnd(dir, n, i + 1, l, name, ci, m);
        }
      }
    }
  }

  /** The label search also stops at the end-of-directory marker. */
  lemma {:induction false} LabelStopsAtEnd(dir: seq<byte>, n: nat, i: nat, m: nat)
    requires ENTRY_SIZE * n <= |dir| && i <= m < n
    requires EntryAt(dir, m)[0] == 0
    ensures LabelFrom(dir, n, i) == LabelFrom(dir, m, i)
    decreases m - i
  {
    if i < m && EntryAt(dir, i)[0] != 0 {
      LabelStopsAtEnd(dir, n, i + 1, m);
    }
  }

  /** An entry that neither ends the directory, nor is part of a long name,
      nor matches. */
  predicate Passed(e: seq<byte>, name: seq<byte>)
    requires |e| == ENTRY_SIZE
  {
    e[0] != 0 && e[11] != LFN_ATTRIBUTE && !ShortNameMatch(e, name)
  }

  /** In a directory without long names, the first live entry whose 8.3 name
      matches is the one found. */
  lemma {:induction false} LookupShort(dir: seq<byte>, n: nat, i: nat, l: seq<byte>, name: seq<byte>, ci: bool, k: nat)
    requires ENTRY_SIZE * n <= |dir| && |l| == LFN_BUFFER && i <= k < n
    requires forall j :: i <= j < k ==> Passed(EntryAt(dir, j), name)
    requires EntryAt(dir, k)[0] != 0 && ShortNameMatch(EntryAt(dir, k), name)
    ensures LookupFrom(dir, n, i, l, name, ci) == Some(EntryAt(dir, k))
    decreases k - i
  {
    if i < k {
      LookupPast(dir, n, i, l, name, ci);
      LookupShort(dir, n, i + 1, l, name, ci, k);
    } else {
      LookupHere(dir, n, i, l, name, ci);
    }
  }

  /** The lookup ends with nothing at the end-of-directory marker... */
  lemma LookupEnd(dir: seq<byte>, n: nat, i: nat, l: seq<byte>, name: seq<byte>, ci: bool)
    requires ENTRY_SIZE * n <= |dir| && |l| == LFN_BUFFER && i < n
    requires EntryAt(dir, i)[0] == 0
    ensures LookupFrom(dir, n, i, l, name, ci).None?
  {
  }

  /** ... at a long-name entry it either settles on the entry that follows
      or goes on with the long-name buffer updated... */
  lemma LongNameStep(dir: seq<byte>, n: nat, i: nat, l: seq<byte>, name: seq<byte>, ci: bool)
    requires ENTRY_SIZE * n <= |dir| && |l| == LFN_BUFFER && i < n
    requires EntryAt(dir, i)[0] != 0 && EntryAt(dir, i)[11] == LFN_ATTRIBUTE
    ensures var e := EntryAt(dir, i);
      LookupFrom(dir, n, i, l, name, ci) ==
        if SequenceNumber(e) == 1 && NameEq(CString(LfnAfter(l, e)), name, ci) then EntryAfterLfn(dir, n, i)
        else LookupFrom(dir, n, i + 1, LfnAfter(l, e), name, ci)
  {
  }

  /** The lookup passes over an entry that neither ends the directory, nor
      is part of a long name, nor matches... */
  lemma LookupPast(dir: seq<byte>, n: nat, i: nat, l: seq<byte>, name: seq<byte>, ci: bool)
    requires ENTRY_SIZE * n <= |dir| && |l| == LFN_BUFFER && i < n
    requires Passed(EntryAt(dir, i), name)
    ensures LookupFrom(dir, n, i, l, name, ci) == LookupFrom(dir, n, i + 1, l, name, ci)
  {
  }

  /** ... and stops at a live entry whose 8.3 name matches. */
  lemma LookupHere(dir: seq<byte>, n: nat, i: nat, l: seq<byte>, name: seq<byte>, ci: bool)
    requires ENTRY_SIZE * n <= |dir| && |l| == LFN_BUFFER && i < n
    requires EntryAt(dir, i)[0] != 0 && ShortNameMatch(EntryAt(dir, i), name)
    ensures LookupFrom(dir, n, i, l, name, ci) == Some(EntryAt(dir, i))
  {
    // the long-name attribute has the volume-label bit (0x08) set
    assert (LFN_ATTRIBUTE / 8) % 2 == 1;
  }

  // ----------------------------------------------------------------- methods

  /** `memset(current_lfn, ' ', sizeof(current_lfn))`. */
  method ClearName(lfn: array<byte>)
    modifies lfn
    ensures lfn[..] == Fill(lfn.Length, SPACE)
  {
    var k := 0;
    while k < lfn.Length
      invariant k <= lfn.Length
      invariant forall j :: 0 <= j < k ==> lfn[j] == SPACE
    {
      lfn[k] := SPACE;
      k := k + 1;
    }
  }

  /** The trailing-space removal of the long-name buffer. */
  method TerminateName(lfn: array<byte>)
    requires lfn.Length == LFN_BUFFER
    modifies lfn
    ensures lfn[..] == Terminated(old(lfn[..]))
  {
    var j: int := LFN_NAME_MAX - 1;
    while j >= 0 && lfn[j] == SPACE
      invariant -1 <= j < LFN_NAME_MAX
      invariant forall k :: j < k < LFN_NAME_MAX ==> lfn[k] == SPACE
    {
      j := j - 1;
    }
    TrimLength(lfn[..LFN_NAME_MAX], j + 1);
    lfn[j + 1] := 0;
  }

  /** One long-name entry: clear on the first entry of a name, skip bad
      sequence numbers, store the 13 characters, and terminate the name at
      the entry with sequence number 1. */
  method LfnEntry(lfn: array<byte>, e: seq<byte>)
    requires lfn.Length == LFN_BUFFER && |e| == ENTRY_SIZE
    modifies lfn
    ensures lfn[..] == LfnAfter(old(lfn[..]), e)
  {
    if (e[0] / 64) % 2 == 1 {
      ClearName(lfn);
    }
    var s: nat := e[0] % 32;
    if s == 0 {
      return;
    }
    var idx := (s - 1) * 13;
    if idx >= LFN_NAME_MAX {
      return;
    }
    StoreFragments(lfn, e, idx);
    if idx != 0 {
      return;
    }
    TerminateName(lfn);
  }

  /** The three `fat32_lfncpy` calls of one long-name entry. */
  method StoreFragments(lfn: array<byte>, e: seq<byte>, idx: nat)
    requires |e| == ENTRY_SIZE
    modifies lfn
    ensures lfn[..] == Fragments(old(lfn[..]), e, idx)
  {
    LfnCopy(lfn, idx, e[1..11], 5);
    LfnCopy(lfn, idx + 5, e[14..26], 6);
    LfnCopy(lfn, idx + 11, e[28..32], 2);
  }

  /** The label buffer: the 11 name bytes in a zeroed 12-byte buffer, then
      the trailing spaces replaced by NULs. */
  method LabelBuffer(e: seq<byte>) returns (r: seq<byte>)
    requires |e| == ENTRY_SIZE
    ensures r == LabelOf(e)
  {
    var buf := new byte[12](_ => 0);
    var k := 0;
    while k < 11
      invariant k <= 11
      invariant forall j :: 0 <= j < k ==> buf[j] == e[j]
      invariant forall j :: k <= j < 12 ==> buf[j] == 0
    {
      buf[k] := e[k];
      k := k + 1;
    }
    var j: int := 10;
    while j >= 0 && buf[j] == SPACE
      invariant -1 <= j <= 10
      invariant forall m :: 0 <= m <= j ==> buf[m] == e[m]
      invariant forall m :: j < m < 12 ==> buf[m] == 0
      invariant forall m :: j < m < 11 ==> e[m] == SPACE
    {
      buf[j] := 0;
      j := j - 1;
    }
    TrimLength(e[..11], j + 1);
    r := buf[..];
  }

  /** The directory scan of `fat32_open_in`: the label of the directory when
      `name` is absent, otherwise the entry the name designates. */
  method ScanDirectory(dir: seq<byte>, name: Option<seq<byte>>, ci: bool) returns (r: Option<seq<byte>>)
    requires name.Some? ==> NulFree(name.value)
    ensures r == DirScan(dir, name, ci)
  {
    var n := |dir| / ENTRY_SIZE;
    var lfn := new byte[LFN_BUFFER](_ => 0);
    assert lfn[..] == Fill(LFN_BUFFER, 0);
    var i := 0;
    while i < n
      invariant i <= n && ENTRY_SIZE * n <= |dir|
      invariant name.None? ==> LabelFrom(dir, n, i) == DirScan(dir, name, ci)
      invariant name.Some? ==> LookupFrom(dir, n, i, lfn[..], name.value, ci) == DirScan(dir, name, ci)
    {
      var done;
      done, r := ScanStep(dir, n, i, lfn, name, ci);
      if done {
        return;
      }
      i := i + 1;
    }
    return None;
  }

  /** One turn of the scan: either the scan ends here with its result, or it
      goes on from the next entry with the same outcome. */
  method ScanStep(dir: seq<byte>, n: nat, i: nat, lfn: array<byte>, name: Option<seq<byte>>, ci: bool)
    returns (done: bool, r: Option<seq<byte>>)
    requires i < n && ENTRY_SIZE * n <= |dir| && lfn.Length == LFN_BUFFER
    requires name.Some? ==> NulFree(name.value)
    modifies lfn
    ensures name.None? && done ==> r == LabelFrom(dir, n, i)
    ensures name.None? && !done ==> LabelFrom(dir, n, i + 1) == LabelFrom(dir, n, i)
    ensures name.Some? && done ==> r == LookupFrom(dir, n, i, old(lfn[..]), name.value, ci)
    ensures name.Some? && !done ==>
      LookupFrom(dir, n, i + 1, lfn[..], name.value, ci) == LookupFrom(dir, n, i, old(lfn[..]), name.value, ci)
  {
    if name.None? {
      done, r := LabelTurn(dir, n, i);
    } else {
      done, r := NameTurn(dir, n, i, lfn, name.value, ci);
    }
  }

  /** The turn of the label search: it ends at the end marker or at the
      volume-label entry, and goes on past any other entry. */
  method LabelTurn(dir: seq<byte>, n: nat, i: nat) returns (done: bool, r: Option<seq<byte>>)
    requires i < n && ENTRY_SIZE * n <= |dir|
    ensures done ==> r == LabelFrom(dir, n, i)
    ensures !done ==> LabelFrom(dir, n, i + 1) == LabelFrom(dir, n, i)
  {
    var e := dir[ENTRY_SIZE * i .. ENTRY_SIZE * (i + 1)];
    assert e == EntryAt(dir, i);
    if e[0] == 0 {
      return true, None;
    }
    if e[11] == VOLLABEL_ATTRIBUTE {
      var text := LabelBuffer(e);
      return true, Some(text);
    }
    return false, None;
  }

  /** The turn of the name lookup: it ends at the end marker, at a matching
      short name, or after a matching long name, and goes on past any other
      entry, having gathered the pieces of a long-name entry. */
  method NameTurn(dir: seq<byte>, n: nat, i: nat, lfn: array<byte>, name: seq<byte>, ci: bool)
    returns (done: bool, r: Option<seq<byte>>)
    requires i < n && ENTRY_SIZE * n <= |dir| && lfn.Length == LFN_BUFFER
    requires NulFree(name)
    modifies lfn
    ensures done ==> r == LookupFrom(dir, n, i, old(lfn[..]), name, ci)
    ensures !done ==> LookupFrom(dir, n, i + 1, lfn[..], name, ci) == LookupFrom(dir, n, i, old(lfn[..]), name, ci)
  {
    var e := dir[ENTRY_SIZE * i .. ENTRY_SIZE * (i + 1)];
    assert e == EntryAt(dir, i);
    if e[0] == 0 {
      LookupEnd(dir, n, i, lfn[..], name, ci);
      return true, None;
    }
    if e[11] == LFN_ATTRIBUTE {
      done, r := LfnTurn(dir, n, i, lfn, name, ci);
      return;
    }
    if (e[11] / 8) % 2 == 0 {
      var ok, fn := FilenameTo83(name);
      if ok && e[..11] == fn {
        LookupHere(dir, n, i, lfn[..], name, ci);
        return true, Some(e);
      }
    }
    LookupPast(dir, n, i, lfn[..], name, ci);
    return false, None;
  }

  /** The turn at a long-name entry. */
  method LfnTurn(dir: seq<byte>, n: nat, i: nat, lfn: array<byte>, name: seq<byte>, ci: bool)
    returns (done: bool, r: Option<seq<byte>>)
    requires i < n && ENTRY_SIZE * n <= |dir| && lfn.Length == LFN_BUFFER
    requires EntryAt(dir, i)[0] != 0 && EntryAt(dir, i)[11] == LFN_ATTRIBUTE
    modifies lfn
    ensures done ==> r == LookupFrom(dir, n, i, old(lfn[..]), name, ci)
    ensures !done ==> LookupFrom(dir, n, i + 1, lfn[..], name, ci) == LookupFrom(dir, n, i, old(lfn[..]), name, ci)
  {
    var e := dir[ENTRY_SIZE * i .. ENTRY_SIZE * (i + 1)];
    assert e == EntryAt(dir, i);
    LfnEntry(lfn, e);
    LongNameStep(dir, n, i, old(lfn[..]), name, ci);
    if e[0] % 32 == 1 && NameEq(CString(lfn[..]), name, ci) {
      if i + 1 >= n {
        return true, None;
      }
      var s := dir[ENTRY_SIZE * (i + 1) .. ENTRY_SIZE * (i + 2)];
      assert s == EntryAt(dir, i + 1);
      if s[0] == 0 || s[0] == DELETED || s[11] == LFN_ATTRIBUTE {
        return true, None;
      }
      return true, Some(s);
    }
    return false, None;
  }
}
