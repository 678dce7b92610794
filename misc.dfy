/** Small helpers of the boot stage: BCD conversion, hexadecimal digits,
    `strtoui` and `get_absolute_path` (limine/common/lib/misc.s2.c). */
module Misc {
  import opened Common

  // -------------------------------------------------------------------- BCD

  /** `bcd_to_int`: the low nibble plus ten times the high nibble (at most
      15 + 15 * 10, so the `uint8_t` result never wraps). */
  function BcdToInt(b: byte): (r: byte)
    ensures r <= 15 + 15 * 10
    ensures IsBcd(b) ==> r / 10 == b / 16 && r % 10 == b % 16
  {
    b % 16 + (b / 16) * 10
  }

  /** `int_to_bcd`: the last decimal digit in the low nibble, the rest shifted
      into the high nibble. The two operands of the `|` share no bit, so it is
      an addition; the `uint8_t` return truncates the shifted part. */
  function IntToBcd(v: byte): (r: byte)
    ensures v <= 99 ==> r / 16 == v / 10 && r % 16 == v % 10
  {
    NibblesOf(v % 10, v / 10);
    (v % 10 + (v / 10) * 16) % 256
  }

  lemma NibblesOf(lo: nat, hi: nat)
    ensures lo < 10 && hi < 10 ==>
      (lo + hi * 16) % 256 == lo + hi * 16 && (lo + hi * 16) / 16 == hi && (lo + hi * 16) % 16 == lo
  {
  }

  /** A byte whose two nibbles are both decimal digits. */
  predicate IsBcd(b: byte)
  {
    b % 16 <= 9 && b / 16 <= 9
  }

  /** Every value a BCD byte can encode comes back from its encoding. */
  lemma BcdRoundTrip(v: byte)
    requires v <= 99
    ensures IsBcd(IntToBcd(v)) && BcdToInt(IntToBcd(v)) == v
  {
    var r := IntToBcd(v);
    assert r / 16 == v / 10 && r % 16 == v % 10;
  }

  /** And every well-formed BCD byte comes back from its value. */
  lemma IntRoundTrip(b: byte)
    requires IsBcd(b)
    ensures BcdToInt(b) <= 99 && IntToBcd(BcdToInt(b)) == b
  {
    var v := BcdToInt(b);
    var lo, hi := b % 16, b / 16;
    assert v == lo + hi * 10;
    assert v / 10 == hi && v % 10 == lo;
    NibblesOf(lo, hi);
    assert b == lo + hi * 16;
  }

  // ----------------------------------------------------------- hex digits

  /** `digit_to_int`: the value of a hexadecimal digit of either case, -1 for
      anything else. */
  function DigitToInt(c: byte): (r: int)
    ensures -1 <= r < 16
    ensures '0' as byte <= c <= '9' as byte ==> r == c - '0' as int
    ensures 'a' as byte <= c <= 'f' as byte ==> r == c - 'a' as int + 10
    ensures 'A' as byte <= c <= 'F' as byte ==> r == c - 'A' as int + 10
    ensures r == -1 <==> !IsHexDigit(c)
  {
    if 'a' as byte <= c <= 'f' as byte then c - 'a' as int + 10
    else if 'A' as byte <= c <= 'F' as byte then c - 'A' as int + 10
    else if '0' as byte <= c <= '9' as byte then c - '0' as int
    else -1
  }

  predicate IsHexDigit(c: byte)
  {
    '0' as byte <= c <= '9' as byte || 'a' as byte <= c <= 'f' as byte || 'A' as byte <= c <= 'F' as byte
  }

  /** The lower-case digit of a value below 16. */
  function HexDigit(d: nat): (c: byte)
    requires d < 16
  {
    if d < 10 then '0' as byte + d else 'a' as byte + (d - 10)
  }

  /** Decoding inverts both spellings of every digit, and a decoded digit
      was one of those two spellings. */
  lemma HexDigitRoundTrip(d: nat, c: byte)
    requires d < 16
    ensures DigitToInt(HexDigit(d)) == d && DigitToInt(ToUpper(HexDigit(d))) == d
    ensures DigitToInt(c) == d ==> c == HexDigit(d) || c == ToUpper(HexDigit(d))
  {
  }

  // ---------------------------------------------------------------- strtoui

  /** Byte `k` of a NUL-terminated string. */
  function CharAt(s: seq<byte>, k: nat): byte
  {
    if k < |s| then s[k] else 0
  }

  /** The index of the first byte at or after `i` that is not a digit (the
      terminator at the latest). */
  function DigitEnd(s: seq<byte>, i: nat): (e: nat)
    requires i <= |s|
    ensures i <= e <= |s| && DigitToInt(CharAt(s, e)) == -1
    ensures forall k :: i <= k < e ==> DigitToInt(s[k]) >= 0
    decreases |s| - i
  {
    if DigitToInt(CharAt(s, i)) == -1 then i else DigitEnd(s, i + 1)
  }

  /** The number the digits of `s` spell in `base`, most significant first,
      in unbounded arithmetic. */
  function Value(s: seq<byte>, base: nat): int
  {
    if s == [] then 0 else Value(s[..|s| - 1], base) * base + DigitToInt(s[|s| - 1])
  }

  /** No prefix of the first `k` digits of `s` exceeds 64 bits. */
  predicate FitsUpTo(s: seq<byte>, base: nat, k: nat)
    requires k <= |s|
  {
    Value(s[..k], base) <= U64_MAX && (k == 0 || FitsUpTo(s, base, k - 1))
  }

  /** What `strtoui` promises for digits `s` in base `b`: the value of the
      whole digit run with `end` past it when every prefix fits in 64 bits;
      otherwise `UINT64_MAX` with `end` at the first digit whose prefix does not. */
  predicate Parsed(s: seq<byte>, b: nat, n: nat, end: nat)
  {
    var e := DigitEnd(s, 0);
    end <= e &&
    (FitsUpTo(s, b, e) ==> end == e && n == Value(s[..e], b)) &&
    (!FitsUpTo(s, b, e) ==>
      n == U64_MAX && end < e && FitsUpTo(s, b, end) && Value(s[..end + 1], b) > U64_MAX)
  }

  /** `strtoui`: the value of the longest digit prefix, `n * base + d` digit by
      digit, with `end` the index of the first non-digit; `UINT64_MAX` with
      `end` at the offending digit as soon as a multiplication or an addition
      would leave 64 bits. The `int` base is converted to `uint64_t` first.
      Any hexadecimal digit is accepted, whatever the base. */
  method StrToUi(s: seq<byte>, base: int) returns (n: nat, end: nat)
    ensures Parsed(s, base % (U64_MAX + 1), n, end)
  {
    var b: nat := base % (U64_MAX + 1);
    ghost var e := DigitEnd(s, 0);
    n := 0;
    var i := 0;
    assert s[..0] == [];
    while true
      invariant i <= e
      invariant FitsUpTo(s, b, i) && n == Value(s[..i], b)
      decreases |s| - i
    {
      var d := DigitToInt(CharAt(s, i));
      NotDigitIsEnd(s, i);
      if d == -1 {
        return n, i;
      }
      ValueStep(s, b, i);
      FitsStep(s, b, i, e);
      var m := n * b;
      MulNonneg(n, b);
      if m > U64_MAX {
        assert Value(s[..i + 1], b) > U64_MAX;
        return U64_MAX, i;
      }
      if m + d > U64_MAX {
        assert Value(s[..i + 1], b) > U64_MAX;
        return U64_MAX, i;
      }
      n := m + d;
      i := i + 1;
    }
  }

  lemma MulNonneg(x: nat, y: nat)
    ensures x * y >= 0
  {
  }

  /** One more digit multiplies by the base and adds the digit. */
  lemma ValueStep(s: seq<byte>, b: nat, i: nat)
    requires i < |s|
    ensures Value(s[..i + 1], b) == Value(s[..i], b) * b + DigitToInt(s[i])
  {
    assert s[..i + 1][..i] == s[..i];
  }

  /** The digits fit up to `i + 1` exactly when the new prefix does, and a
      prefix that does not fit spoils every longer run. */
  lemma FitsStep(s: seq<byte>, b: nat, i: nat, e: nat)
    requires i < e <= |s| && FitsUpTo(s, b, i)
    ensures FitsUpTo(s, b, i + 1) <==> Value(s[..i + 1], b) <= U64_MAX
    ensures Value(s[..i + 1], b) > U64_MAX ==> !FitsUpTo(s, b, e)
  {
    if FitsUpTo(s, b, e) {
      FitsPrefix(s, b, i + 1, e);
    }
  }

  lemma {:induction false} FitsPrefix(s: seq<byte>, b: nat, j: nat, e: nat)
    requires j <= e <= |s| && FitsUpTo(s, b, e)
    ensures FitsUpTo(s, b, j)
    decreases e - j
  {
    if j < e {
      FitsPrefix(s, b, j, e - 1);
    }
  }

  /** Before the end of the digit run every byte is a digit. */
  lemma NotDigitIsEnd(s: seq<byte>, i: nat)
    requires i <= DigitEnd(s, 0)
    ensures DigitToInt(CharAt(s, i)) == -1 <==> i == DigitEnd(s, 0)
  {
  }

  /** Digits above the base are taken at face value: "1f" in base 10 is 25. */
  lemma LargeDigitAccepted()
    ensures Value(['1' as byte, 'f' as byte], 10) == 25
  {
    var s := ['1' as byte, 'f' as byte];
    assert s[..1] == ['1' as byte] && s[..1][..0] == [];
    assert DigitToInt('1' as byte) == 1 && DigitToInt('f' as byte) == 15;
    assert Value(s[..1], 10) == 1;
  }

  // ------------------------------------------------------ get_absolute_path

  const DOT: byte := 0x2e

  /** Paths `get_absolute_path` can work on: a relative, non-empty path needs
      a working directory that starts with '/', the byte its ".." scan stops
      at and the byte before the first write. */
  predicate Rooted(path: seq<byte>, pwd: seq<byte>)
  {
    path != [] && path[0] != SLASH ==> |pwd| > 0 && pwd[0] == SLASH
  }

  /** The position of the last '/' at or before `k`. */
  function LastSlash(out: seq<byte>, k: nat): (q: nat)
    requires k < |out| && out[0] == SLASH
    ensures q <= k && out[q] == SLASH
    ensures forall m :: q < m <= k ==> out[m] != SLASH
    decreases k
  {
    if out[k] == SLASH then k else LastSlash(out, k - 1)
  }

  /** A ".." component: the output backed up to its last '/', but never to
      before the leading one. */
  function Up(out: seq<byte>): (r: seq<byte>)
    requires |out| >= 1 && out[0] == SLASH
    ensures 1 <= |r| <= |out| && r == out[..|r|]
  {
    var q := LastSlash(out, |out| - 1);
    if q == 0 then out[..1] else out[..q]
  }

  /** The terminating step: a trailing '/' is dropped unless it is the first byte. */
  function Term(out: seq<byte>): (r: seq<byte>)
    requires |out| >= 1
    ensures 1 <= |r| <= |out| && |out| - 1 <= |r| && r == out[..|r|]
    ensures |r| < |out| <==> |out| != 1 && out[|out| - 1] == SLASH
  {
    if |out| != 1 && out[|out| - 1] == SLASH then out[..|out| - 1] else out
  }

  /** The '/' written before a component unless the output is the root or
      already ends with one. */
  function Separator(out: seq<byte>): (r: seq<byte>)
    requires |out| >= 1
  {
    if |out| != 1 && out[|out| - 1] != SLASH then [SLASH] else []
  }

  /** The end of the component starting at `i`: the next '/' or the terminator. */
  function ComponentEnd(path: seq<byte>, i: nat): (j: nat)
    requires i <= |path|
    ensures i <= j <= |path| && (j < |path| ==> path[j] == SLASH)
    ensures forall k :: i <= k < j ==> path[k] != SLASH
    decreases |path| - i
  {
    if i == |path| || path[i] == SLASH then i else ComponentEnd(path, i + 1)
  }

  /** "." followed by the terminator, or by a single '/' and the terminator. */
  predicate DotEnd(path: seq<byte>, i: nat)
  {
    CharAt(path, i) == DOT &&
    (CharAt(path, i + 1) == 0 || (CharAt(path, i + 1) == SLASH && CharAt(path, i + 2) == 0))
  }

  /** ".." followed by the terminator, or by a single '/' and the terminator. */
  predicate DotDotEnd(path: seq<byte>, i: nat)
  {
    CharAt(path, i) == DOT && CharAt(path, i + 1) == DOT &&
    (CharAt(path, i + 2) == 0 || (CharAt(path, i + 2) == SLASH && CharAt(path, i + 3) == 0))
  }

  predicate DotDotSlash(path: seq<byte>, i: nat)
  {
    CharAt(path, i) == DOT && CharAt(path, i + 1) == DOT && CharAt(path, i + 2) == SLASH
  }

  predicate DotSlash(path: seq<byte>, i: nat)
  {
    CharAt(path, i) == DOT && CharAt(path, i + 1) == SLASH
  }

  /** The output `get_absolute_path` ends with when it reaches the start of a
      component at `i` of `path` with `out` written so far, or None when a
      byte it must write would land at `size - 1` or beyond. Empty components
      are skipped, "." is dropped, ".." backs up, and any other component is
      appended after a separator. */
  function Resolve(out: seq<byte>, path: seq<byte>, i: nat, size: nat): (r: Option<seq<byte>>)
    requires i <= |path| && |out| >= 1 && out[0] == SLASH
    decreases |path| - i
  {
    if CharAt(path, i) == SLASH then Resolve(out, path, i + 1, size)
    else if DotEnd(path, i) then Some(Term(out))
    else if DotDotEnd(path, i) then Some(Term(Up(out)))
    else if DotDotSlash(path, i) then Resolve(Up(out), path, i + 3, size)
    else if DotSlash(path, i) then Resolve(out, path, i + 2, size)
    else
      var j := ComponentEnd(path, i);
      var next := out + Separator(out) + path[i..j];
      if |next| > |out| && |next| > size - 1 then None
      else if j == |path| then Some(Term(next))
      else Resolve(next, path, j + 1, size)
  }

  /** `get_absolute_path` as written: it fails on a zero size and on a working
      directory that does not fit; an empty path gives the working directory;
      a relative path continues from it and an absolute one from "/". */
  function AbsolutePathAsWritten(path: seq<byte>, pwd: seq<byte>, size: nat): (r: Option<seq<byte>>)
    requires Rooted(path, pwd)
  {
    if size == 0 then None
    else if path == [] then (if |pwd| >= size then None else Some(pwd))
    else if path[0] != SLASH then (if |pwd| >= size then None else Resolve(pwd, path, 0, size))
    else Resolve([SLASH], path, 1, size)
  }

  /** The same with the terminator's room checked for an absolute path too:
      a buffer of one byte cannot hold "/" and its terminator. */
  function AbsolutePath(path: seq<byte>, pwd: seq<byte>, size: nat): (r: Option<seq<byte>>)
    requires Rooted(path, pwd)
  {
    if path != [] && path[0] == SLASH && size < 2 then None
    else AbsolutePathAsWritten(path, pwd, size)
  }

  /** What the caller of `get_absolute_path` relies on: a zero size fails, an
      empty path yields the working directory when it fits, and a result
      leaves room for its terminator and, for a non-empty path, starts with '/'. */
  lemma AbsolutePathShape(path: seq<byte>, pwd: seq<byte>, size: nat)
    requires Rooted(path, pwd)
    ensures var r := AbsolutePath(path, pwd, size);
      (size == 0 ==> r.None?) &&
      (path == [] ==> r == (if |pwd| < size then Some(pwd) else None)) &&
      (r.Some? ==> |r.value| < size) &&
      (r.Some? && path != [] ==> |r.value| >= 1 && r.value[0] == SLASH)
  {
    if path != [] && size >= 1 {
      if path[0] == SLASH {
        if size >= 2 {
          ResolveFits([SLASH], path, 1, size);
        }
      } else if |pwd| < size {
        ResolveFits(pwd, path, 0, size);
      }
    }
  }

  /** Everything `Resolve` produces starts with '/' and leaves room for the
      terminator, provided what it started from did. */
  lemma {:induction false} ResolveFits(out: seq<byte>, path: seq<byte>, i: nat, size: nat)
    requires i <= |path| && |out| >= 1 && out[0] == SLASH && |out| <= size - 1
    ensures var r := Resolve(out, path, i, size);
      r.Some? ==> 1 <= |r.value| <= size - 1 && r.value[0] == SLASH
    decreases |path| - i, 1
  {
    if CharAt(path, i) == SLASH {
      ResolveFits(out, path, i + 1, size);
    } else if DotEnd(path, i) || DotDotEnd(path, i) {
    } else if DotDotSlash(path, i) {
      ResolveFits(Up(out), path, i + 3, size);
    } else if DotSlash(path, i) {
      ResolveFits(out, path, i + 2, size);
    } else {
      ComponentFits(out, path, i, size);
    }
  }

  /** The case of `ResolveFits` where a component is appended. */
  lemma {:induction false} ComponentFits(out: seq<byte>, path: seq<byte>, i: nat, size: nat)
    requires i <= |path| && |out| >= 1 && out[0] == SLASH && |out| <= size - 1
    requires CharAt(path, i) != SLASH && !DotEnd(path, i) && !DotDotEnd(path, i)
    requires !DotDotSlash(path, i) && !DotSlash(path, i)
    ensures var r := Resolve(out, path, i, size);
      r.Some? ==> 1 <= |r.value| <= size - 1 && r.value[0] == SLASH
    decreases |path| - i, 0
  {
    var j := ComponentEnd(path, i);
    var next := out + Separator(out) + path[i..j];
    if j < |path| && |next| <= size - 1 {
      ResolveFits(next, path, j + 1, size);
    }
  }

  /** Finding: as written, an absolute path in a one-byte buffer is accepted
      and its terminator goes to index 1, past the buffer. */
  lemma TerminatorOverrun()
    ensures var r := AbsolutePathAsWritten([SLASH], [], 1); r == Some([SLASH]) && |r.value| >= 1
    ensures AbsolutePath([SLASH], [], 1) == None
  {
    assert Resolve([SLASH], [SLASH], 1, 1) == Some(Term([SLASH]));
  }

  /** Finding: `get_absolute_path` as written starts the ".." scan at the byte
      it would write next, which still holds whatever the buffer held. The
      position the scan stops at from `p` in buffer `buf`: */
  function BackScanAsWritten(buf: seq<byte>, p: nat): (q: nat)
    requires p < |buf| && buf[0] == SLASH
    ensures q <= p && buf[q] == SLASH
    decreases p
  {
    if buf[p] == SLASH then p else BackScanAsWritten(buf, p - 1)
  }

  /** With "/a" written and a stale '/' at the next position, "/a/.." keeps
      "/a" instead of backing up to "/". */
  lemma StaleSlashKeepsComponent()
    ensures var buf := [SLASH, 'a' as byte, SLASH];
      BackScanAsWritten(buf, 2) == 2 && buf[..2] == [SLASH, 'a' as byte] && Up(buf[..2]) == [SLASH]
  {
    var out := [SLASH, 'a' as byte];
    assert LastSlash(out, 1) == 0;
  }

  /** ".." undoes the component appended last, and at the root stays there. */
  lemma UpUndoesAppend(out: seq<byte>, comp: seq<byte>)
    requires |out| >= 1 && out[0] == SLASH && |comp| > 0
    requires forall k :: 0 <= k < |comp| ==> comp[k] != SLASH
    requires |out| == 1 || out[|out| - 1] != SLASH
    ensures Up(out + Separator(out) + comp) == out
    ensures Up([SLASH]) == [SLASH]
  {
    var next := out + Separator(out) + comp;
    var s := |out| + |Separator(out)|;
    assert next[s - 1] == SLASH;
    assert forall m :: s <= m < |next| ==> next[m] != SLASH;
    LastSlashSkips(next, |next| - 1, s - 1);
    if |out| == 1 {
      assert next[..1] == out;
    } else {
      assert next[..s - 1] == out;
    }
  }

  lemma {:induction false} LastSlashSkips(out: seq<byte>, k: nat, q: nat)
    requires q <= k < |out| && out[0] == SLASH && out[q] == SLASH
    requires forall m :: q < m <= k ==> out[m] != SLASH
    ensures LastSlash(out, k) == q
    decreases k
  {
    if k > q {
      LastSlashSkips(out, k - 1, q);
    }
  }

  /** "/a/b/../c" normalises to "/a/c": the ".." drops the "b" before it. */
  lemma NormalisesParent()
    ensures AbsolutePath([SLASH, 'a' as byte, SLASH, 'b' as byte, SLASH, DOT, DOT, SLASH, 'c' as byte], [], 64)
            == Some([SLASH, 'a' as byte, SLASH, 'c' as byte])
  {
    var p := [SLASH, 'a' as byte, SLASH, 'b' as byte, SLASH, DOT, DOT, SLASH, 'c' as byte];
    var a := [SLASH, 'a' as byte];
    var ab := [SLASH, 'a' as byte, SLASH, 'b' as byte];
    ResolveCases([SLASH], p, 1, 64);
    ParentEnters(p, a, ab);
    ParentLeaves(p, a, ab);
  }

  /** The first two components of "/a/b/../c" are appended in turn. */
  lemma ParentEnters(p: seq<byte>, a: seq<byte>, ab: seq<byte>)
    requires p == [SLASH, 'a' as byte, SLASH, 'b' as byte, SLASH, DOT, DOT, SLASH, 'c' as byte]
    requires a == [SLASH, 'a' as byte] && ab == [SLASH, 'a' as byte, SLASH, 'b' as byte]
    ensures Resolve([SLASH], p, 1, 64) == Resolve(ab, p, 5, 64)
  {
    ParentEntersA(p, a);
    ParentEntersB(p, a, ab);
  }

  lemma ParentEntersA(p: seq<byte>, a: seq<byte>)
    requires p == [SLASH, 'a' as byte, SLASH, 'b' as byte, SLASH, DOT, DOT, SLASH, 'c' as byte]
    requires a == [SLASH, 'a' as byte]
    ensures Resolve([SLASH], p, 1, 64) == Resolve(a, p, 3, 64)
  {
    ResolveCases([SLASH], p, 1, 64);
    assert ComponentEnd(p, 1) == 2 && p[1..2] == ['a' as byte] && Separator([SLASH]) == [];
    assert [SLASH] + [] + ['a' as byte] == a;
  }

  lemma ParentEntersB(p: seq<byte>, a: seq<byte>, ab: seq<byte>)
    requires p == [SLASH, 'a' as byte, SLASH, 'b' as byte, SLASH, DOT, DOT, SLASH, 'c' as byte]
    requires a == [SLASH, 'a' as byte] && ab == [SLASH, 'a' as byte, SLASH, 'b' as byte]
    ensures Resolve(a, p, 3, 64) == Resolve(ab, p, 5, 64)
  {
    ResolveCases(a, p, 3, 64);
    assert ComponentEnd(p, 3) == 4 && p[3..4] == ['b' as byte] && Separator(a) == [SLASH];
    assert a + [SLASH] + ['b' as byte] == ab;
  }

  /** The ".." of "/a/b/../c" goes back up to "/a", and "c" is appended. */
  lemma ParentLeaves(p: seq<byte>, a: seq<byte>, ab: seq<byte>)
    requires p == [SLASH, 'a' as byte, SLASH, 'b' as byte, SLASH, DOT, DOT, SLASH, 'c' as byte]
    requires a == [SLASH, 'a' as byte] && ab == [SLASH, 'a' as byte, SLASH, 'b' as byte]
    ensures Resolve(ab, p, 5, 64) == Some([SLASH, 'a' as byte, SLASH, 'c' as byte])
  {
    var ac := [SLASH, 'a' as byte, SLASH, 'c' as byte];
    ResolveCases(ab, p, 5, 64);
    assert LastSlash(ab, 3) == 2 && Up(ab) == a;
    ResolveCases(a, p, 8, 64);
    assert ComponentEnd(p, 8) == 9 && p[8..9] == ['c' as byte];
    assert a + [SLASH] + ['c' as byte] == ac && Term(ac) == ac;
  }

  /** "/.." normalises to "/": the root has no parent to go up to. */
  lemma NormalisesRoot()
    ensures AbsolutePath([SLASH, DOT, DOT], [], 64) == Some([SLASH])
  {
    var q := [SLASH, DOT, DOT];
    ResolveCases([SLASH], q, 1, 64);
    assert CharAt(q, 1) == DOT && CharAt(q, 2) == DOT && CharAt(q, 3) == 0;
    assert !DotEnd(q, 1) && DotDotEnd(q, 1);
    assert LastSlash([SLASH], 0) == 0 && Up([SLASH]) == [SLASH] && Term([SLASH]) == [SLASH];
    assert Resolve([SLASH], q, 1, 64) == Some([SLASH]);
  }

  /** `get_absolute_path` into a buffer of `buf.Length` bytes. On success the
      result is the NUL-terminated `AbsolutePath`, and nothing was written at
      or past the end of the buffer. The ".." scan starts at the last byte
      written and a one-byte buffer is refused for an absolute path (the two
      findings above). */
  method GetAbsolutePath(buf: array<byte>, path: seq<byte>, pwd: seq<byte>) returns (ok: bool, ghost len: nat)
    requires NulFree(path) && NulFree(pwd) && Rooted(path, pwd)
    modifies buf
    ensures buf.Length == 0 ==> !ok
    ensures ok == AbsolutePath(path, pwd, buf.Length).Some?
    ensures ok ==> len < buf.Length && buf[..len] == AbsolutePath(path, pwd, buf.Length).value && buf[len] == 0
    ensures path == [] ==> ok == (|pwd| < buf.Length) && (ok ==> buf[..len] == pwd)
  {
    var size := buf.Length;
    AbsolutePathShape(path, pwd, size);
    ghost var want := AbsolutePath(path, pwd, size);
    len := 0;
    if size == 0 {
      return false, 0;
    }
    if |path| == 0 {
      if |pwd| >= size {
        return false, 0;
      }
      CopyChunk(buf, pwd + [0], 0);
      assert buf[..|pwd|] == pwd;
      return true, |pwd|;
    }
    var p: nat, i: nat;
    if path[0] != SLASH {
      if |pwd| >= size {
        return false, 0;
      }
      CopyChunk(buf, pwd + [0], 0);
      assert buf[..|pwd|] == pwd;
      p, i := |pwd|, 0;
    } else {
      if size < 2 {
        return false, 0;
      }
      buf[0] := SLASH;
      assert buf[..1] == [SLASH];
      p, i := 1, 1;
    }
    while true
      invariant 1 <= p <= size - 1 && i <= |path| && buf[0] == SLASH
      invariant want == Resolve(buf[..p], path, i, size)
      decreases |path| - i
    {
      var done, ok';
      done, ok', p, i := PathStep(buf, path, p, i);
      if done {
        return ok', p;
      }
    }
  }

  /** One turn of the loop of `get_absolute_path`: either the path is used up
      (or the buffer too small) and the buffer holds what `Resolve` gives,
      or the walk goes on further into the path with the same outcome. */
  method PathStep(buf: array<byte>, path: seq<byte>, p: nat, i: nat) returns (done: bool, ok: bool, p': nat, i': nat)
    requires NulFree(path) && 1 <= p <= buf.Length - 1 && i <= |path| && buf[0] == SLASH
    modifies buf
    ensures done ==> ok == Resolve(old(buf[..p]), path, i, buf.Length).Some?
    ensures done && ok ==> p' < buf.Length && buf[..p'] == Resolve(old(buf[..p]), path, i, buf.Length).value && buf[p'] == 0
    ensures !done ==> 1 <= p' <= buf.Length - 1 && i < i' <= |path| && buf[0] == SLASH
    ensures !done ==> Resolve(buf[..p'], path, i', buf.Length) == Resolve(old(buf[..p]), path, i, buf.Length)
  {
    ghost var out := buf[..p];
    ResolveCases(out, path, i, buf.Length);
    if CharAt(path, i) == SLASH {
      return false, false, p, i + 1;
    }
    if DotEnd(path, i) {
      p' := Terminate(buf, p);
      return true, true, p', i;
    }
    if DotDotEnd(path, i) {
      p' := BackUp(buf, p);
      p' := Terminate(buf, p');
      return true, true, p', i;
    }
    if DotDotSlash(path, i) {
      p' := BackUp(buf, p);
      buf[p'] := 0;
      assert buf[..p'] == Up(out);
      return false, false, p', i + 3;
    }
    if DotSlash(path, i) {
      return false, false, p, i + 2;
    }
    var j;
    ok, p', j := AppendComponent(buf, path, p, i);
    if !ok {
      return true, false, p', i;
    }
    if CharAt(path, j) == 0 {
      p' := Terminate(buf, p');
      return true, true, p', i;
    }
    return false, false, p', j + 1;
  }

  /** One step of `Resolve`, spelled out for each kind of component. */
  lemma ResolveCases(out: seq<byte>, path: seq<byte>, i: nat, size: nat)
    requires i <= |path| && |out| >= 1 && out[0] == SLASH
    ensures CharAt(path, i) == SLASH ==> Resolve(out, path, i, size) == Resolve(out, path, i + 1, size)
    ensures CharAt(path, i) != SLASH && !DotEnd(path, i) && !DotDotEnd(path, i) && DotDotSlash(path, i) ==>
      Resolve(out, path, i, size) == Resolve(Up(out), path, i + 3, size)
    ensures (CharAt(path, i) != SLASH && !DotEnd(path, i) && !DotDotEnd(path, i) && !DotDotSlash(path, i) &&
             DotSlash(path, i)) ==> Resolve(out, path, i, size) == Resolve(out, path, i + 2, size)
    ensures (CharAt(path, i) != SLASH && !DotEnd(path, i) && !DotDotEnd(path, i) && !DotDotSlash(path, i) &&
             !DotSlash(path, i)) ==>
        var j := ComponentEnd(path, i);
        var next := out + Separator(out) + path[i..j];
        Resolve(out, path, i, size) ==
          if |next| > |out| && |next| > size - 1 then None
          else if j == |path| then Some(Term(next))
          else Resolve(next, path, j + 1, size)
  {
  }

  /** Writes the separator and the component starting at `i`, one byte at a
      time, each only if it lands before `buf.Length - 1`. */
  method AppendComponent(buf: array<byte>, path: seq<byte>, p: nat, i: nat) returns (ok: bool, q: nat, j: nat)
    requires 1 <= p <= buf.Length - 1 && buf[0] == SLASH && i <= |path| && NulFree(path)
    modifies buf
    ensures j == ComponentEnd(path, i) && buf[0] == SLASH
    ensures var out := old(buf[..p]); var next := out + Separator(out) + path[i..j];
      ok == !(|next| > |out| && |next| > buf.Length - 1) &&
      (ok ==> q == |next| <= buf.Length - 1 && buf[..q] == next)
  {
    ghost var out := buf[..p];
    ghost var size := buf.Length;
    j := ComponentEnd(path, i);
    q := p;
    if q - 1 != 0 && buf[q - 1] != SLASH {
      if q >= buf.Length - 1 {
        return false, q, j;
      }
      buf[q] := SLASH;
      q := q + 1;
    }
    assert buf[..q] == out + Separator(out);
    var k := i;
    while CharAt(path, k) != SLASH && CharAt(path, k) != 0
      invariant i <= k <= j && q == |out| + |Separator(out)| + (k - i) && q <= buf.Length - 1 && buf[0] == SLASH
      invariant buf[..q] == out + Separator(out) + path[i..k]
      decreases |path| - k
    {
      if q >= buf.Length - 1 {
        return false, q, j;
      }
      buf[q] := path[k];
      assert buf[..q + 1] == buf[..q] + [path[k]];
      assert path[i..k + 1] == path[i..k] + [path[k]];
      q, k := q + 1, k + 1;
    }
    assert k == j;
    return true, q, j;
  }

  /** The ".." scan: back to the last '/' written, but never onto the leading one. */
  method BackUp(buf: array<byte>, p: nat) returns (q: nat)
    requires 1 <= p < buf.Length && buf[0] == SLASH
    ensures 1 <= q <= p && buf[..q] == Up(buf[..p])
  {
    q := p - 1;
    while buf[q] != SLASH
      invariant q < p
      invariant LastSlash(buf[..p], p - 1) == LastSlash(buf[..p], q)
      decreases q
    {
      q := q - 1;
    }
    if q == 0 {
      q := 1;
    }
  }

  /** `term`: drop a trailing '/' that is not the first byte, then write the terminator. */
  method Terminate(buf: array<byte>, p: nat) returns (len: nat)
    requires 1 <= p < buf.Length
    modifies buf
    ensures len < buf.Length && buf[..len] == Term(old(buf[..p])) && buf[len] == 0
  {
    len := p;
    if buf[p - 1] == SLASH && p - 1 != 0 {
      len := p - 1;
    }
    buf[len] := 0;
  }
}
