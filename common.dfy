/** Shared vocabulary: bytes, optional values, little-endian field decoding and
    the C string helpers the storage stack relies on. */
module Common {

  /** An octet, as stored on disk and in memory buffers. */
  type byte = b: int | 0 <= b < 256

  const U16_MAX: nat := 0xFFFF
  const U32_MAX: nat := 0xFFFF_FFFF
  const U64_MAX: nat := 0xFFFF_FFFF_FFFF_FFFF

  datatype Option<T> = None | Some(value: T)

  /** Unsigned little-endian value of the bytes `s[off..off+n]`. */
  function LE(s: seq<byte>, off: nat, n: nat): (r: nat)
    requires off + n <= |s|
    ensures n == 1 ==> r == s[off]
    decreases n
  {
    if n == 0 then 0 else s[off] + 256 * LE(s, off + 1, n - 1)
  }

  /** Upper bound of an n-byte little-endian value. */
  lemma {:induction false} LEBound(s: seq<byte>, off: nat, n: nat)
    requires off + n <= |s|
    ensures LE(s, off, n) < Pow256(n)
    decreases n
  {
    if n > 0 {
      LEBound(s, off + 1, n - 1);
    }
  }

  function Pow256(n: nat): (r: nat)
    ensures r >= 1
  {
    if n == 0 then 1 else 256 * Pow256(n - 1)
  }

  function LE16(s: seq<byte>, off: nat): (r: nat)
    requires off + 2 <= |s|
    ensures r <= U16_MAX
  {
    LEBound(s, off, 2);
    LE(s, off, 2)
  }

  function LE32(s: seq<byte>, off: nat): (r: nat)
    requires off + 4 <= |s|
    ensures r <= U32_MAX
  {
    LEBound(s, off, 4);
    LE(s, off, 4)
  }

  function LE64(s: seq<byte>, off: nat): (r: nat)
    requires off + 8 <= |s|
    ensures r <= U64_MAX
  {
    LEBound(s, off, 8);
    LE(s, off, 8)
  }

  /** A 32-bit field is zero exactly when its four bytes are. */
  lemma LE32Zero(s: seq<byte>, off: nat)
    requires off + 4 <= |s|
    ensures LE32(s, off) == 0 <==> s[off .. off + 4] == [0, 0, 0, 0]
  {
    assert LE(s, off, 4) == s[off] + 256 * (s[off + 1] + 256 * (s[off + 2] + 256 * LE(s, off + 3, 1)));
    if s[off .. off + 4] == [0, 0, 0, 0] {
      assert s[off] == 0 && s[off + 1] == 0 && s[off + 2] == 0 && s[off + 3] == 0;
    }
  }

  /** A C string's characters: no byte of it is the terminator. */
  predicate NulFree(s: seq<byte>)
  {
    forall k :: 0 <= k < |s| ==> s[k] != 0
  }

  /** The characters of a NUL-terminated buffer: everything before the first 0 byte
      (the whole buffer if there is none). */
  function CString(s: seq<byte>): (r: seq<byte>)
    ensures |r| <= |s| && r == s[..|r|]
    ensures forall k :: 0 <= k < |r| ==> r[k] != 0
    ensures |r| < |s| ==> s[|r|] == 0
  {
    if s == [] then [] else if s[0] == 0 then [] else [s[0]] + CString(s[1..])
  }

  /** `s` with every trailing space removed. */
  function TrimRightSpaces(s: seq<byte>): (r: seq<byte>)
    ensures |r| <= |s| && r == s[..|r|]
    ensures r == [] || r[|r| - 1] != ' ' as byte
    ensures |r| > 0 ==> s[|r| - 1] != ' ' as byte
    ensures forall k :: |r| <= k < |s| ==> s[k] == ' ' as byte
  {
    if s == [] then [] else if s[|s| - 1] == ' ' as byte then TrimRightSpaces(s[..|s| - 1]) else s
  }

  /** ASCII upper-casing, the behaviour of the freestanding libc's `toupper`. */
  function ToUpper(c: byte): (r: byte)
    ensures 'a' as byte <= c <= 'z' as byte ==> r == c - 32
    ensures !('a' as byte <= c <= 'z' as byte) ==> r == c
  {
    if 'a' as byte <= c <= 'z' as byte then c - 32 else c
  }

  function ToLower(c: byte): (r: byte)
    ensures 'A' as byte <= c <= 'Z' as byte ==> r == c + 32
    ensures !('A' as byte <= c <= 'Z' as byte) ==> r == c
  {
    if 'A' as byte <= c <= 'Z' as byte then c + 32 else c
  }

  function UpperAll(s: seq<byte>): (r: seq<byte>)
    ensures |r| == |s|
    ensures forall k :: 0 <= k < |s| ==> r[k] == ToUpper(s[k])
  {
    if s == [] then [] else [ToUpper(s[0])] + UpperAll(s[1..])
  }

  /** `strcasecmp(a, b) == 0` for NUL-free strings: equal after folding ASCII case. */
  predicate CaseEq(a: seq<byte>, b: seq<byte>)
  {
    |a| == |b| && forall k :: 0 <= k < |a| ==> ToLower(a[k]) == ToLower(b[k])
  }

  /** Name comparison used by both drivers: exact or case-folded. */
  predicate NameEq(a: seq<byte>, b: seq<byte>, caseInsensitive: bool)
  {
    if caseInsensitive then CaseEq(a, b) else a == b
  }

  /** `DIV_ROUNDUP(x, a)`. */
  function DivRoundUp(x: nat, a: nat): nat
    requires a > 0
  {
    (x + a - 1) / a
  }

  /** `n` bytes of the given value, the effect of `memset`. */
  function Fill(n: nat, b: byte): (r: seq<byte>)
    ensures |r| == n && forall k :: 0 <= k < n ==> r[k] == b
  {
    seq(n, _ => b)
  }

  /** C's `/` and `%` on unsigned operands. */
  method DivMod(x: nat, d: nat) returns (q: nat, r: nat)
    requires d > 0
    ensures q * d + r == x && r < d
    ensures q == x / d && r == x % d
  {
    q := x / d;
    r := x % d;
  }

  lemma MulMonoImp(a: int, b: int, c: nat)
    ensures a <= b ==> a * c <= b * c
  {
    if a <= b {
      MulMono(0, b - a, c);
      assert b * c - a * c == (b - a) * c;
    }
  }

  lemma MulMono(a: nat, b: nat, c: nat)
    requires a <= b
    ensures a * c <= b * c
  {
  }

  /** `memcpy`: copies `data` into `buf` at `at`, leaving every other byte alone. */
  method CopyChunk(buf: array<byte>, data: seq<byte>, at: nat)
    requires at + |data| <= buf.Length
    modifies buf
    ensures forall i :: at <= i < at + |data| ==> buf[i] == data[i - at]
    ensures forall i :: 0 <= i < buf.Length && !(at <= i < at + |data|) ==> buf[i] == old(buf[i])
  {
    var k := 0;
    while k < |data|
      invariant k <= |data|
      invariant forall i :: at <= i < at + k ==> buf[i] == data[i - at]
      invariant forall i :: 0 <= i < buf.Length && !(at <= i < at + k) ==> buf[i] == old(buf[i])
    {
      buf[at + k] := data[k];
      k := k + 1;
    }
  }

  // ------------------------------------------------------------------ paths

  const SLASH: byte := 0x2f

  /** Byte `k` of the NUL-terminated path. */
  function PathAt(path: seq<byte>, k: nat): byte
  {
    if k < |path| then path[k] else 0
  }

  /** A byte that ends a path component. */
  predicate IsSeparator(b: byte)
  {
    b == 0 || b == SLASH
  }

  /** The position after the leading slashes. */
  function SkipSlashes(path: seq<byte>, idx: nat): (r: nat)
    requires idx <= |path|
    ensures idx <= r <= |path| && PathAt(path, r) != SLASH
    ensures forall k :: idx <= k < r ==> path[k] == SLASH
    decreases |path| - idx
  {
    if PathAt(path, idx) == SLASH then SkipSlashes(path, idx + 1) else idx
  }
}
