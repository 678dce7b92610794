/** File names in a FAT directory: the 8.3 short-name transform
    (`fat32_filename_to_8_3`) and the copy of a long-name fragment into the
    long-name buffer (`fat32_lfncpy`), limine/common/fs/fat32.s2.c:385-423. */
module FatNames {
  import opened Common

  const SPACE: byte := 0x20
  const DOT: byte := 0x2e

  /** Position of the first '.' of `s`, if there is one. */
  function DotIndex(s: seq<byte>): (r: Option<nat>)
    ensures r.Some? ==> r.value < |s| && s[r.value] == DOT
    ensures r.Some? ==> forall k :: 0 <= k < r.value ==> s[k] != DOT
    ensures r.None? ==> forall k :: 0 <= k < |s| ==> s[k] != DOT
  {
    if s == [] then None
    else if s[0] == DOT then Some(0)
    else
      match DotIndex(s[1..])
      case None => None
      case Some(k) => Some(k + 1)
  }

  /** `s` upper-cased and followed by spaces up to `n` bytes: one field of
      an 8.3 name. */
  function Field(s: seq<byte>, n: nat): (r: seq<byte>)
    requires |s| <= n
    ensures |r| == n
    ensures forall k :: 0 <= k < n ==> r[k] == if k < |s| then ToUpper(s[k]) else SPACE
  {
    UpperAll(s) + Fill(n - |s|, SPACE)
  }

  /** A name has an 8.3 form when it has at most one '.', at most eight
      characters before it and at most three after it. */
  predicate Is83(s: seq<byte>)
  {
    match DotIndex(s)
    case None => |s| <= 8
    case Some(k) => k <= 8 && |s| - k - 1 <= 3 && DotIndex(s[k + 1..]).None?
  }

  /** The 8.3 form: the base upper-cased and padded to eight bytes, then the
      extension upper-cased and padded to three. */
  function Name83(s: seq<byte>): (r: seq<byte>)
    requires Is83(s)
    ensures |r| == 11
  {
    match DotIndex(s)
    case None => Field(s, 11)
    case Some(k) => Field(s[..k], 8) + Field(s[k + 1..], 3)
  }

  /** `fat32_filename_to_8_3`: fills the eleven bytes with spaces, then
      copies the name upper-cased, jumping to byte 8 at the '.'; gives up on
      a second '.', on a base longer than 8 and on an extension longer
      than 3. `src` holds the characters of the NUL-terminated name. */
  method FilenameTo83(src: seq<byte>) returns (ok: bool, dest: seq<byte>)
    ensures ok <==> Is83(src)
    ensures ok ==> dest == Name83(src)
  {
    var d := new byte[11](_ => SPACE);
    var i, j, ext := 0, 0, false;
    ghost var dot: nat := 0;
    assert d[..] == Field(src[..0], 11);
    while i < |src|
      invariant i <= |src| && Progress(src, i, j, ext, dot, d[..])
    {
      var stop;
      stop, j, ext, dot := Step83(src, i, j, ext, dot, d);
      if stop {
        return false, [];
      }
      i := i + 1;
    }
    assert src[..i] == src;
    if ext {
      assert src[dot + 1..i] == src[dot + 1..];
    }
    return true, d[..];
  }

  /** What the first `i` characters of `src` leave: `j` the next byte to
      fill, `dot` the position of the '.' once `ext` is set, and `d` the
      fields so far. */
  ghost predicate Progress(src: seq<byte>, i: nat, j: nat, ext: bool, dot: nat, d: seq<byte>)
    requires i <= |src|
  {
    if !ext then
      j == i <= 8 && DotIndex(src[..i]).None? && d == Field(src[..i], 11)
    else
      dot < i && dot <= 8 && j == 8 + (i - dot - 1) <= 11 &&
      DotIndex(src[..i]) == Some(dot) && DotIndex(src[dot + 1..i]).None? &&
      d == Field(src[..dot], 8) + Field(src[dot + 1..i], 3)
  }

  /** One turn of the loop of `fat32_filename_to_8_3` on the character
      `src[i]`: it gives up when the name has no 8.3 form, and otherwise
      leaves what the first `i + 1` characters leave. */
  method Step83(src: seq<byte>, i: nat, j: nat, ext: bool, ghost dot: nat, d: array<byte>)
    returns (stop: bool, j': nat, ext': bool, ghost dot': nat)
    requires i < |src| && Progress(src, i, j, ext, dot, d[..])
    modifies d
    ensures stop ==> !Is83(src)
    ensures !stop ==> Progress(src, i + 1, j', ext', dot', d[..])
  {
    assert src[..i + 1] == src[..i] + [src[i]];
    DotPush(src[..i], src[i]);
    if src[i] == DOT {
      if ext {
        TwoDots(src, dot, i);
        return true, j, ext, dot;
      }
      DotSwitch(src[..i]);
      assert src[i + 1..i + 1] == [];
      return false, 8, true, i;
    }
    stop, j', ext', dot' := CharStep83(src, i, j, ext, dot, d);
  }

  /** The step of `Step83` at a byte other than '.': the name is refused
      when its field is full, and the byte is stored upper-cased otherwise. */
  method CharStep83(src: seq<byte>, i: nat, j: nat, ext: bool, ghost dot: nat, d: array<byte>)
    returns (stop: bool, j': nat, ext': bool, ghost dot': nat)
    requires i < |src| && src[i] != DOT && Progress(src, i, j, ext, dot, d[..])
    modifies d
    ensures stop ==> !Is83(src)
    ensures !stop ==> Progress(src, i + 1, j', ext', dot', d[..])
  {
    if j >= 11 || (j >= 8 && !ext) {
      if ext {
        LongExtension(src, dot, i);
      } else {
        LongBase(src, i);
      }
      return true, j, ext, dot;
    }
    if ext {
      StoreExtension(src, i, j, dot, d);
    } else {
      StoreBase(src, i, j, d);
    }
    return false, j + 1, ext, dot;
  }

  /** Storing a byte of the base name, upper-cased. */
  method StoreBase(src: seq<byte>, i: nat, j: nat, d: array<byte>)
    requires i < |src| && src[i] != DOT && j < 8 && Progress(src, i, j, false, 0, d[..])
    modifies d
    ensures Progress(src, i + 1, j + 1, false, 0, d[..])
  {
    assert src[..i + 1] == src[..i] + [src[i]];
    DotPush(src[..i], src[i]);
    ghost var before := d[..];
    d[j] := ToUpper(src[i]);
    assert d[..] == before[j := ToUpper(src[i])];
    FieldPush(src[..i], src[i], 11);
  }

  /** Storing a byte of the extension, upper-cased. */
  method StoreExtension(src: seq<byte>, i: nat, j: nat, ghost dot: nat, d: array<byte>)
    requires i < |src| && src[i] != DOT && j < 11 && Progress(src, i, j, true, dot, d[..])
    modifies d
    ensures Progress(src, i + 1, j + 1, true, dot, d[..])
  {
    assert src[..i + 1] == src[..i] + [src[i]];
    DotPush(src[..i], src[i]);
    ghost var before := d[..];
    d[j] := ToUpper(src[i]);
    assert d[..] == before[j := ToUpper(src[i])];
    assert src[dot + 1..i + 1] == src[dot + 1..i] + [src[i]];
    DotPush(src[dot + 1..i], src[i]);
    ExtensionPush(src[..dot], src[dot + 1..i], src[i]);
  }

  /** The first '.' of `s + [c]`: the first of `s`, else `c` when it is
      one. */
  lemma {:induction false} DotPush(s: seq<byte>, c: byte)
    ensures DotIndex(s + [c]) ==
      if DotIndex(s).Some? then DotIndex(s) else if c == DOT then Some(|s|) else None
  {
    if s != [] {
      assert (s + [c])[1..] == s[1..] + [c];
      DotPush(s[1..], c);
    }
  }

  /** The first '.' of a prefix of `s` is the first of `s`. */
  lemma DotPrefix(s: seq<byte>, n: nat)
    requires n <= |s| && DotIndex(s[..n]).Some?
    ensures DotIndex(s) == DotIndex(s[..n])
  {
    var k := DotIndex(s[..n]).value;
    forall j | 0 <= j <= k
      ensures s[j] == s[..n][j]
    {
    }
  }

  /** A second '.' rules out an 8.3 form. */
  lemma TwoDots(s: seq<byte>, dot: nat, i: nat)
    requires dot < i < |s| && s[i] == DOT && DotIndex(s[..i]) == Some(dot)
    ensures !Is83(s)
  {
    DotPrefix(s, i);
    var e := s[dot + 1..];
    assert e[i - dot - 1] == DOT;
  }

  /** Nine characters without a '.' rule out an 8.3 form. */
  lemma LongBase(s: seq<byte>, i: nat)
    requires 8 <= i < |s| && s[i] != DOT && DotIndex(s[..i]).None?
    ensures !Is83(s)
  {
    forall j | 0 <= j < i
      ensures s[j] != DOT
    {
      assert s[..i][j] == s[j];
    }
  }

  /** Four characters after the '.' rule out an 8.3 form. */
  lemma LongExtension(s: seq<byte>, dot: nat, i: nat)
    requires dot < i < |s| && i - dot - 1 >= 3 && DotIndex(s[..i]) == Some(dot)
    ensures !Is83(s)
  {
    DotPrefix(s, i);
  }

  /** One more character of a field takes the place of the first padding
      space. */
  lemma FieldPush(s: seq<byte>, c: byte, n: nat)
    requires |s| < n
    ensures Field(s, n)[|s| := ToUpper(c)] == Field(s + [c], n)
  {
    var a, b := Field(s, n)[|s| := ToUpper(c)], Field(s + [c], n);
    forall k | 0 <= k < n
      ensures a[k] == b[k]
    {
      if k < |s| {
        assert (s + [c])[k] == s[k];
      }
    }
  }

  /** The same, in the extension of an 8.3 form. */
  lemma ExtensionPush(base: seq<byte>, x: seq<byte>, c: byte)
    requires |base| <= 8 && |x| < 3
    ensures (Field(base, 8) + Field(x, 3))[8 + |x| := ToUpper(c)] == Field(base, 8) + Field(x + [c], 3)
  {
    FieldPush(x, c, 3);
    var a, b := (Field(base, 8) + Field(x, 3))[8 + |x| := ToUpper(c)], Field(base, 8) + Field(x + [c], 3);
    forall k | 0 <= k < 11
      ensures a[k] == b[k]
    {
    }
  }

  /** At the '.', a base of at most eight characters padded to the whole
      name is the base field followed by an empty extension. */
  lemma DotSwitch(base: seq<byte>)
    requires |base| <= 8
    ensures Field(base, 11) == Field(base, 8) + Field([], 3)
  {
    var a, b := Field(base, 11), Field(base, 8) + Field([], 3);
    forall k | 0 <= k < 11
      ensures a[k] == b[k]
    {
    }
  }

  lemma Name83Base(s: seq<byte>, dot: nat, k: nat)
    requires dot <= 8 && dot < |s| && |s| - dot - 1 <= 3 && k < 8
    ensures (Field(s[..dot], 8) + Field(s[dot + 1..], 3))[k] == if k < dot then ToUpper(s[k]) else SPACE
  {
    var b := Field(s[..dot], 8);
    assert (b + Field(s[dot + 1..], 3))[k] == b[k];
  }

  lemma Name83Extension(s: seq<byte>, dot: nat, k: nat)
    requires dot <= 8 && dot < |s| && |s| - dot - 1 <= 3 && 8 <= k < 11
    ensures (Field(s[..dot], 8) + Field(s[dot + 1..], 3))[k] ==
      if k < 8 + (|s| - dot - 1) then ToUpper(s[dot + 1 + (k - 8)]) else SPACE
  {
    var x := s[dot + 1..];
    var e := Field(x, 3);
    assert (Field(s[..dot], 8) + e)[k] == e[k - 8];
    if k - 8 < |x| {
      assert x[k - 8] == s[dot + 1 + (k - 8)];
    }
  }

  /** Every byte of an 8.3 form is upper-case. */
  lemma Name83Upper(s: seq<byte>, k: nat)
    requires Is83(s) && k < 11
    ensures !('a' as byte <= Name83(s)[k] <= 'z' as byte)
  {
    match DotIndex(s)
    case None =>
    case Some(dot) =>
      if k < 8 {
        Name83Base(s, dot, k);
      } else {
        Name83Extension(s, dot, k);
      }
  }

  // ---------------------------------------------------------------- long names

  /** `FAT32_LFN_MAX_FILENAME_LENGTH`: 20 fragments of 13 characters and a terminator. */
  const LFN_BUFFER: nat := 20 * 13 + 1

  /** The long-name buffer after the low bytes of the `size` UCS-2 characters
      in `src` are stored at `off`, as far as the buffer reaches. */
  function LfnPut(buf: seq<byte>, off: nat, src: seq<byte>, size: nat): (r: seq<byte>)
    requires |src| >= 2 * size
    ensures |r| == |buf|
    ensures forall k :: 0 <= k < |buf| && !(off <= k < off + size) ==> r[k] == buf[k]
    ensures forall k :: off <= k < off + size && k < |buf| ==> r[k] == src[2 * (k - off)]
  {
    seq(|buf|, k requires 0 <= k < |buf| => if off <= k < off + size then src[2 * (k - off)] else buf[k])
  }

  /** `fat32_lfncpy`: copies the low byte of each of `size` UCS-2 characters
      of `src` to `dest` from `off` on, stopping at the end of `dest`. */
  method LfnCopy(dest: array<byte>, off: nat, src: seq<byte>, size: nat)
    requires |src| >= 2 * size
    modifies dest
    ensures dest[..] == LfnPut(old(dest[..]), off, src, size)
  {
    ghost var before := dest[..];
    var i := 0;
    while i < size
      invariant i <= size
      invariant forall k :: 0 <= k < dest.Length ==>
        dest[k] == if off <= k < off + i then src[2 * (k - off)] else before[k]
    {
      if off + i >= dest.Length {
        break;
      }
      dest[off + i] := src[2 * i];
      i := i + 1;
    }
    assert dest[..] == LfnPut(before, off, src, size);
  }
}
