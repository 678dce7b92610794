/** The kernel shell: the line editor fed by the keyboard buffer, the
    bounded formatting buffer used by `info`, and the command splitter. */
module Shell {
  import opened Common

  const LINE_CAPACITY: nat := 256
  const FMT_CAPACITY: nat := 256

  const SPACE: byte := 0x20
  const NEWLINE: byte := 0x0a
  const BACKSPACE: byte := 0x08
  const TAB: byte := 0x09

  /** The bytes the line editor accepts: printable ASCII. */
  predicate Printable(b: byte)
  {
    0x20 <= b <= 0x7E
  }

  predicate AllPrintable(s: seq<byte>)
  {
    forall k :: 0 <= k < |s| ==> Printable(s[k])
  }

  /** The stack buffer holding the line being typed. */
  class LineBuffer {
    const buf: array<byte>
    var len: nat
    ghost var contents: seq<byte>

    ghost predicate Valid()
      reads this, buf
    {
      buf.Length == LINE_CAPACITY && len <= LINE_CAPACITY && contents == buf[..len]
    }

    constructor ()
      ensures Valid() && contents == [] && fresh(buf)
    {
      buf := new byte[LINE_CAPACITY](_ => 0);
      len := 0;
      contents := [];
    }

    /** Append a byte if there is room; report whether it was stored. */
    method Push(b: byte) returns (ok: bool)
      requires Valid()
      modifies this, buf
      ensures Valid()
      ensures ok <==> |old(contents)| < LINE_CAPACITY
      ensures contents == if ok then old(contents) + [b] else old(contents)
    {
      if len < buf.Length {
        buf[len] := b;
        len := len + 1;
        contents := contents + [b];
        ok := true;
      } else {
        ok := false;
      }
    }

    /** Drop the last byte if there is one; report whether one was dropped. */
    method Pop() returns (ok: bool)
      requires Valid()
      modifies this
      ensures Valid()
      ensures ok <==> |old(contents)| > 0
      ensures contents == if ok then old(contents)[..|old(contents)| - 1] else old(contents)
    {
      if len > 0 {
        len := len - 1;
        contents := contents[..len];
        ok := true;
      } else {
        ok := false;
      }
    }

    method Clear()
      requires Valid()
      modifies this
      ensures Valid() && contents == []
    {
      len := 0;
      contents := [];
    }

    /** The typed line, `as_str`. */
    function AsStr(): (r: seq<byte>)
      requires Valid()
      reads this, buf
      ensures |r| <= LINE_CAPACITY && r == contents
    {
      buf[..len]
    }
  }

  /** What a byte sink of capacity `FMT_CAPACITY` holds after being offered
      the bytes `t`: all of them if they fit, otherwise the first
      `FMT_CAPACITY`. */
  function Fitted(t: seq<byte>): (r: seq<byte>)
    ensures |r| <= FMT_CAPACITY && r <= t
    ensures |t| <= FMT_CAPACITY ==> r == t
    ensures |t| > FMT_CAPACITY ==> |r| == FMT_CAPACITY
  {
    if |t| <= FMT_CAPACITY then t else t[..FMT_CAPACITY]
  }

  /** Offering one more byte: it is kept exactly when there is room. */
  lemma FittedStep(t: seq<byte>, b: byte)
    ensures Fitted(t + [b]) == if |t| < FMT_CAPACITY then t + [b] else Fitted(t)
  {
    if |t| >= FMT_CAPACITY {
      assert (t + [b])[..FMT_CAPACITY] == t[..FMT_CAPACITY];
    }
  }

  /** Writing in pieces leaves what writing everything at once would: the
      several `write_str` calls one `write!` makes lose nothing but the
      overflow. */
  lemma FittedAppend(a: seq<byte>, b: seq<byte>)
    ensures Fitted(Fitted(a) + b) == Fitted(a + b)
  {
    if |a| > FMT_CAPACITY {
      assert (a + b)[..FMT_CAPACITY] == a[..FMT_CAPACITY];
      assert (a[..FMT_CAPACITY] + b)[..FMT_CAPACITY] == a[..FMT_CAPACITY];
    }
  }

  /** The stack buffer `info` formats into. */
  class FmtBuf {
    const buf: array<byte>
    var pos: nat
    ghost var contents: seq<byte>

    ghost predicate Valid()
      reads this, buf
    {
      buf.Length == FMT_CAPACITY && pos <= FMT_CAPACITY && contents == buf[..pos]
    }

    constructor ()
      ensures Valid() && contents == [] && fresh(buf)
    {
      buf := new byte[FMT_CAPACITY](_ => 0);
      pos := 0;
      contents := [];
    }

    /** `write_str`: copy the bytes that fit, drop the rest, and succeed. */
    method WriteStr(s: seq<byte>) returns (ok: bool)
      requires Valid()
      modifies this, buf
      ensures Valid() && ok
      ensures contents == Fitted(old(contents) + s)
    {
      var k := 0;
      while k < |s|
        invariant k <= |s| && Valid()
        invariant contents == Fitted(old(contents) + s[..k])
      {
        FittedStep(old(contents) + s[..k], s[k]);
        assert old(contents) + s[..k + 1] == old(contents) + s[..k] + [s[k]];
        if pos < buf.Length {
          buf[pos] := s[k];
          pos := pos + 1;
          contents := contents + [s[k]];
        }
        k := k + 1;
      }
      assert s[..k] == s;
      ok := true;
    }

    function AsStr(): (r: seq<byte>)
      requires Valid()
      reads this, buf
      ensures |r| <= FMT_CAPACITY && r == contents
    {
      buf[..pos]
    }
  }

  /** What `trim_start` removes from a line of ASCII: tab, line feed,
      vertical tab, form feed, carriage return and space. */
  predicate IsWhitespace(b: byte)
  {
    b == SPACE || 0x09 <= b <= 0x0D
  }

  predicate AllWhitespace(s: seq<byte>)
  {
    forall k :: 0 <= k < |s| ==> IsWhitespace(s[k])
  }

  /** How many whitespace bytes `trim_start` removes from the front of `s`. */
  function LeadingWhitespace(s: seq<byte>): (n: nat)
    ensures n <= |s| && AllWhitespace(s[..n])
    ensures n == |s| || !IsWhitespace(s[n])
  {
    if |s| == 0 || !IsWhitespace(s[0]) then 0
    else
      var n := LeadingWhitespace(s[1..]);
      assert s[..n + 1] == [s[0]] + s[1..][..n];
      n + 1
  }

  /** `trim_start`: what follows the leading whitespace. */
  function TrimStart(s: seq<byte>): (r: seq<byte>)
    ensures r == [] || !IsWhitespace(r[0])
  {
    s[LeadingWhitespace(s)..]
  }

  /** `find`: the index of the first occurrence of `c`. */
  function FindByte(s: seq<byte>, c: byte): (r: Option<nat>)
    ensures r.None? <==> c !in s
    ensures r.Some? ==> r.value < |s| && s[r.value] == c && c !in s[..r.value]
  {
    if |s| == 0 then None
    else if s[0] == c then Some(0)
    else
      var r := FindByte(s[1..], c);
      if r.None? then None
      else
        assert s[..r.value + 1] == [s[0]] + s[1..][..r.value];
        Some(r.value + 1)
  }

  /** The command word and its arguments, or None for a blank line. */
  function Split(line: seq<byte>): Option<(seq<byte>, seq<byte>)>
  {
    var trimmed := TrimStart(line);
    if trimmed == [] then None
    else
      match FindByte(trimmed, SPACE)
      case Some(pos) => Some((trimmed[..pos], TrimStart(trimmed[pos + 1..])))
      case None => Some((trimmed, []))
  }

  const HELP: seq<byte> := [0x68, 0x65, 0x6c, 0x70]          // help
  const CLEAR: seq<byte> := [0x63, 0x6c, 0x65, 0x61, 0x72]   // clear
  const ECHO: seq<byte> := [0x65, 0x63, 0x68, 0x6f]          // echo
  const INFO: seq<byte> := [0x69, 0x6e, 0x66, 0x6f]          // info
  const REBOOT: seq<byte> := [0x72, 0x65, 0x62, 0x6f, 0x6f, 0x74]  // reboot

  /** The commands `execute` dispatches to. */
  datatype Command = Blank | Help | ClearScreen | Echo(text: seq<byte>) | Info | Reboot | Unknown(name: seq<byte>)

  /** `execute`'s choice of command for a line. */
  function Parse(line: seq<byte>): (c: Command)
    ensures c.Blank? <==> AllWhitespace(line)
    ensures c.Unknown? ==> c.name !in {HELP, CLEAR, ECHO, INFO, REBOOT}
  {
    match Split(line)
    case None => Blank
    case Some((cmd, args)) =>
      if cmd == HELP then Help
      else if cmd == CLEAR then ClearScreen
      else if cmd == ECHO then Echo(args)
      else if cmd == INFO then Info
      else if cmd == REBOOT then Reboot
      else Unknown(cmd)
  }

  /** A line is leading whitespace, the command word (non-empty, no space,
      not starting with whitespace), a gap, and the arguments (not starting
      with whitespace); the gap is empty only when there are no arguments,
      and otherwise is a space followed by whitespace. */
  lemma SplitParts(line: seq<byte>, cmd: seq<byte>, args: seq<byte>) returns (lead: seq<byte>, gap: seq<byte>)
    requires Split(line) == Some((cmd, args))
    ensures line == lead + cmd + gap + args
    ensures AllWhitespace(lead) && AllWhitespace(gap)
    ensures |cmd| > 0 && !IsWhitespace(cmd[0]) && SPACE !in cmd
    ensures args == [] || !IsWhitespace(args[0])
    ensures gap == [] ==> args == []
    ensures gap != [] ==> gap[0] == SPACE
  {
    var t := TrimStart(line);
    lead := line[..LeadingWhitespace(line)];
    SplitAt(line, LeadingWhitespace(line));
    var found := FindByte(t, SPACE);
    if found.None? {
      gap := [];
      assert cmd == t && args == [];
    } else {
      var pos := found.value;
      assert cmd == t[..pos] && args == TrimStart(t[pos + 1..]);
      gap := ArgumentGap(t, pos, cmd, args);
      Regroup(lead, cmd, gap, args);
    }
  }

  lemma Regroup(a: seq<byte>, b: seq<byte>, c: seq<byte>, d: seq<byte>)
    ensures a + (b + c + d) == a + b + c + d
  {
  }

  lemma SplitAt(s: seq<byte>, n: nat)
    requires n <= |s|
    ensures s == s[..n] + s[n..]
  {
  }

  /** After the command word: the space, the whitespace `trim_start`
      skips, then the arguments. */
  lemma ArgumentGap(t: seq<byte>, pos: nat, cmd: seq<byte>, args: seq<byte>) returns (gap: seq<byte>)
    requires pos < |t| && t[pos] == SPACE && cmd == t[..pos] && args == TrimStart(t[pos + 1..])
    ensures t == cmd + gap + args && AllWhitespace(gap) && gap != [] && gap[0] == SPACE
  {
    var rest := t[pos + 1..];
    var ws := rest[..|rest| - |args|];
    gap := [SPACE] + ws;
    assert rest == ws + args;
    assert t == cmd + [SPACE] + rest;
  }

  /** What one key taken from the keyboard buffer makes the shell do. */
  datatype Action = Ignore | ExecuteLine(command: Command) | EraseLast | EchoByte(b: byte)

  /** One turn of `run`'s loop on a popped key: the new line and the action. */
  function Dispatch(line: seq<byte>, key: byte): (seq<byte>, Action)
  {
    if key == NEWLINE then ([], ExecuteLine(Parse(line)))
    else if key == BACKSPACE then
      if |line| > 0 then (line[..|line| - 1], EraseLast) else (line, Ignore)
    else if key == TAB then (line, Ignore)
    else if Printable(key) then
      if |line| < LINE_CAPACITY then (line + [key], EchoByte(key)) else (line, Ignore)
    else (line, Ignore)
  }

  /** The line stays printable ASCII within capacity, which is what makes
      `as_str`'s unchecked UTF-8 conversion sound; only printable bytes are
      echoed, and erasing happens only when a byte was removed. */
  lemma DispatchKeepsLine(line: seq<byte>, key: byte)
    requires |line| <= LINE_CAPACITY && AllPrintable(line)
    ensures var (next, a) := Dispatch(line, key);
      && |next| <= LINE_CAPACITY && AllPrintable(next)
      && (a.EchoByte? ==> Printable(a.b) && next == line + [a.b])
      && (a.EraseLast? ==> |line| > 0 && next == line[..|line| - 1])
      && (a.ExecuteLine? <==> key == NEWLINE)
      && (a.Ignore? ==> next == line)
  {
  }

  /** `run` on one popped key. */
  method HandleKey(line: LineBuffer, key: byte) returns (a: Action)
    requires line.Valid()
    modifies line, line.buf
    ensures line.Valid()
    ensures (line.contents, a) == Dispatch(old(line.contents), key)
  {
    if key == NEWLINE {
      a := ExecuteLine(Parse(line.AsStr()));
      line.Clear();
    } else if key == BACKSPACE {
      var popped := line.Pop();
      a := if popped then EraseLast else Ignore;
    } else if key == TAB {
      a := Ignore;
    } else if 0x20 <= key <= 0x7E {
      var pushed := line.Push(key);
      a := if pushed then EchoByte(key) else Ignore;
    } else {
      a := Ignore;
    }
  }
}
