/** The keyboard input path of the kernel (kernel/src/keyboard.rs): the
    256-byte ring buffer the interrupt handler fills and the shell drains,
    and the scancode-set-1 translation with its shift state. */
module Keyboard {
  import opened Common

  const CAPACITY: nat := 256

  /** `KeyBuffer`: a ring of `CAPACITY` bytes. The keys waiting to be read are
      `contents`, oldest first, stored from `readPos` on, wrapping around. */
  class KeyBuffer {
    const buf: array<byte>
    var readPos: nat
    var writePos: nat
    var count: nat
    ghost var contents: seq<byte>

    ghost predicate Valid()
      reads this, buf
    {
      buf.Length == CAPACITY && count <= CAPACITY && readPos < CAPACITY && writePos < CAPACITY &&
      writePos == Slot(readPos, count) &&
      |contents| == count &&
      forall k :: 0 <= k < count ==> contents[k] == buf[Slot(readPos, k)]
    }

    /** `KeyBuffer::new`: zeroed storage, both positions at 0, nothing queued. */
    constructor ()
      ensures Valid() && fresh(buf) && contents == []
      ensures readPos == 0 && writePos == 0 && count == 0
    {
      buf := new byte[CAPACITY](_ => 0);
      readPos, writePos, count := 0, 0, 0;
      contents := [];
    }

    /** `push`: with room left, the key goes to `writePos`, which advances
        around the ring, and joins the end of the queue; a full buffer drops it. */
    method Push(key: byte)
      requires Valid()
      modifies this, buf
      ensures Valid() && readPos == old(readPos)
      ensures old(count) < CAPACITY ==>
        buf[old(writePos)] == key && writePos == (old(writePos) + 1) % CAPACITY &&
        count == old(count) + 1 && contents == old(contents) + [key]
      ensures old(count) == CAPACITY ==> unchanged(this) && unchanged(buf)
    {
      if count < CAPACITY {
        buf[writePos] := key;
        SlotStep(readPos, count);
        writePos := (writePos + 1) % CAPACITY;
        count := count + 1;
        contents := contents + [key];
        forall k | 0 <= k < count
          ensures contents[k] == buf[Slot(readPos, k)]
        {
          if k < count - 1 {
            RingSlotsDiffer(readPos, k, old(count));
          }
        }
      }
    }

    /** `pop`: None on an empty buffer; otherwise the oldest key, read at
        `readPos`, which advances around the ring. */
    method Pop() returns (key: Option<byte>)
      requires Valid()
      modifies this
      ensures Valid() && writePos == old(writePos)
      ensures old(count) == 0 ==> key == None && unchanged(this)
      ensures old(count) > 0 ==>
        key == Some(old(buf[readPos])) && key == Some(old(contents)[0]) &&
        readPos == (old(readPos) + 1) % CAPACITY && count == old(count) - 1 &&
        contents == old(contents)[1..]
    {
      if count == 0 {
        return None;
      }
      key := Some(buf[readPos]);
      assert contents[0] == buf[Slot(readPos, 0)];
      ghost var r := readPos;
      readPos := (readPos + 1) % CAPACITY;
      count := count - 1;
      contents := contents[1..];
      forall k | 0 <= k < count
        ensures contents[k] == buf[Slot(readPos, k)]
      {
        SlotNext(r, k);
      }
      SlotNext(r, count);
    }
  }

  /** The ring slot `k` places after `readPos`. */
  function Slot(readPos: nat, k: nat): (r: nat)
    ensures r < CAPACITY
  {
    (readPos + k) % CAPACITY
  }

  /** The slot of the key `k` places after the oldest is never the next free
      slot while the ring is not full. */
  lemma RingSlotsDiffer(readPos: nat, k: nat, count: nat)
    requires k < count < CAPACITY
    ensures Slot(readPos, k) != Slot(readPos, count)
  {
  }

  /** The slot after slot `k` is the next one around the ring. */
  lemma SlotStep(r: nat, k: nat)
    ensures Slot(r, k + 1) == (Slot(r, k) + 1) % CAPACITY
  {
  }

  /** Advancing the read position by one moves every slot index down by one. */
  lemma SlotNext(r: nat, k: nat)
    ensures Slot((r + 1) % CAPACITY, k) == Slot(r, k + 1)
  {
  }

  /** Scancode set 1 to ASCII without shift, by rows of eight keys; 0 means "no character" (every key from 0x40 on). */
  function Unshifted(key: nat): byte
  {
    if key < 0x08 then [0x00, 0x1b, 0x31, 0x32, 0x33, 0x34, 0x35, 0x36][key - 0x00]
    else if key < 0x10 then [0x37, 0x38, 0x39, 0x30, 0x2d, 0x3d, 0x08, 0x09][key - 0x08]
    else if key < 0x18 then [0x71, 0x77, 0x65, 0x72, 0x74, 0x79, 0x75, 0x69][key - 0x10]
    else if key < 0x20 then [0x6f, 0x70, 0x5b, 0x5d, 0x0a, 0x00, 0x61, 0x73][key - 0x18]
    else if key < 0x28 then [0x64, 0x66, 0x67, 0x68, 0x6a, 0x6b, 0x6c, 0x3b][key - 0x20]
    else if key < 0x30 then [0x27, 0x60, 0x00, 0x5c, 0x7a, 0x78, 0x63, 0x76][key - 0x28]
    else if key < 0x38 then [0x62, 0x6e, 0x6d, 0x2c, 0x2e, 0x2f, 0x00, 0x2a][key - 0x30]
    else if key < 0x40 then [0x00, 0x20, 0x00, 0x00, 0x00, 0x00, 0x00, 0x00][key - 0x38]
    else 0
  }

  /** The same with shift held. */
  function Shifted(key: nat): byte
  {
    if key < 0x08 then [0x00, 0x1b, 0x21, 0x40, 0x23, 0x24, 0x25, 0x5e][key - 0x00]
    else if key < 0x10 then [0x26, 0x2a, 0x28, 0x29, 0x5f, 0x2b, 0x08, 0x09][key - 0x08]
    else if key < 0x18 then [0x51, 0x57, 0x45, 0x52, 0x54, 0x59, 0x55, 0x49][key - 0x10]
    else if key < 0x20 then [0x4f, 0x50, 0x7b, 0x7d, 0x0a, 0x00, 0x41, 0x53][key - 0x18]
    else if key < 0x28 then [0x44, 0x46, 0x47, 0x48, 0x4a, 0x4b, 0x4c, 0x3a][key - 0x20]
    else if key < 0x30 then [0x22, 0x7e, 0x00, 0x7c, 0x5a, 0x58, 0x43, 0x56][key - 0x28]
    else if key < 0x38 then [0x42, 0x4e, 0x4d, 0x3c, 0x3e, 0x3f, 0x00, 0x2a][key - 0x30]
    else if key < 0x40 then [0x00, 0x20, 0x00, 0x00, 0x00, 0x00, 0x00, 0x00][key - 0x38]
    else 0
  }

  const LEFT_SHIFT: nat := 0x2A
  const RIGHT_SHIFT: nat := 0x36

  /** Bit 7 of a scancode: the key was released. */
  predicate IsRelease(scancode: byte)
  {
    scancode >= 0x80
  }

  /** The key number, bits 0-6. */
  function KeyOf(scancode: byte): (key: nat)
    ensures key < 128
  {
    scancode % 0x80
  }

  /** The shift state after a scancode: pressing either shift key sets it,
      releasing either clears it, every other key leaves it. */
  function NextShift(shiftHeld: bool, scancode: byte): bool
  {
    if KeyOf(scancode) == LEFT_SHIFT || KeyOf(scancode) == RIGHT_SHIFT then !IsRelease(scancode)
    else shiftHeld
  }

  /** The byte `handle_scancode` queues for a scancode, if any. */
  function Emitted(shiftHeld: bool, scancode: byte): (r: Option<byte>)
    ensures r.Some? ==> r.value != 0 && !IsRelease(scancode)
    ensures r.Some? ==> KeyOf(scancode) != LEFT_SHIFT && KeyOf(scancode) != RIGHT_SHIFT
    ensures r.Some? ==> r.value == (if shiftHeld then Shifted(KeyOf(scancode)) else Unshifted(KeyOf(scancode)))
  {
    var key := KeyOf(scancode);
    if key == LEFT_SHIFT || key == RIGHT_SHIFT || IsRelease(scancode) then None
    else
      var ascii := if shiftHeld then Shifted(key) else Unshifted(key);
      if ascii == 0 then None else Some(ascii)
  }

  /** Key `key` and every later one: a lower-case letter without shift is
      its capital with shift, and both tables hold only printable ASCII, the
      control bytes Escape, Backspace, Tab and Newline, or 0. */
  predicate TablesFrom(key: nat)
    decreases 0x40 - key
  {
    key >= 0x40 ||
    ((!('a' as byte <= Unshifted(key) <= 'z' as byte) || Shifted(key) == Unshifted(key) - 32) &&
     KnownByte(Unshifted(key)) && KnownByte(Shifted(key)) &&
     TablesFrom(key + 1))
  }

  predicate KnownByte(b: byte)
  {
    b == 0 || 0x20 <= b <= 0x7E || b == 8 || b == 9 || b == 10 || b == 27
  }

  lemma {:induction false} TablesAt(from: nat, key: nat)
    requires from <= key && TablesFrom(from)
    ensures !('a' as byte <= Unshifted(key) <= 'z' as byte) || Shifted(key) == Unshifted(key) - 32
    ensures KnownByte(Unshifted(key)) && KnownByte(Shifted(key))
    decreases key - from
  {
    if from < key && from < 0x40 {
      TablesAt(from + 1, key);
    }
  }

  /** Both tables, checked eight entries at a time from the last row down. */
  lemma TablesChecked56()
    ensures TablesFrom(56)
  {
    assert TablesFrom(63); assert TablesFrom(62); assert TablesFrom(61); assert TablesFrom(60); assert TablesFrom(59); assert TablesFrom(58); assert TablesFrom(57); assert TablesFrom(56);
  }

  lemma TablesChecked48()
    ensures TablesFrom(48)
  {
    TablesChecked56();
    assert TablesFrom(55); assert TablesFrom(54); assert TablesFrom(53); assert TablesFrom(52); assert TablesFrom(51); assert TablesFrom(50); assert TablesFrom(49); assert TablesFrom(48);
  }

  lemma TablesChecked40()
    ensures TablesFrom(40)
  {
    TablesChecked48();
    assert TablesFrom(47); assert TablesFrom(46); assert TablesFrom(45); assert TablesFrom(44); assert TablesFrom(43); assert TablesFrom(42); assert TablesFrom(41); assert TablesFrom(40);
  }

  lemma TablesChecked32()
    ensures TablesFrom(32)
  {
    TablesChecked40();
    assert TablesFrom(39); assert TablesFrom(38); assert TablesFrom(37); assert TablesFrom(36); assert TablesFrom(35); assert TablesFrom(34); assert TablesFrom(33); assert TablesFrom(32);
  }

  lemma TablesChecked24()
    ensures TablesFrom(24)
  {
    TablesChecked32();
    assert TablesFrom(31); assert TablesFrom(30); assert TablesFrom(29); assert TablesFrom(28); assert TablesFrom(27); assert TablesFrom(26); assert TablesFrom(25); assert TablesFrom(24);
  }

  lemma TablesChecked16()
    ensures TablesFrom(16)
  {
    TablesChecked24();
    assert TablesFrom(23); assert TablesFrom(22); assert TablesFrom(21); assert TablesFrom(20); assert TablesFrom(19); assert TablesFrom(18); assert TablesFrom(17); assert TablesFrom(16);
  }

  lemma TablesChecked8()
    ensures TablesFrom(8)
  {
    TablesChecked16();
    assert TablesFrom(15); assert TablesFrom(14); assert TablesFrom(13); assert TablesFrom(12); assert TablesFrom(11); assert TablesFrom(10); assert TablesFrom(9); assert TablesFrom(8);
  }

  lemma TablesChecked()
    ensures TablesFrom(0)
  {
    TablesChecked8();
    assert TablesFrom(7); assert TablesFrom(6); assert TablesFrom(5); assert TablesFrom(4); assert TablesFrom(3); assert TablesFrom(2); assert TablesFrom(1); assert TablesFrom(0);
  }

  /** Shift turns every lower-case letter of the layout into its capital. */
  lemma ShiftCapitalises(key: nat)
    requires key < 128 && 'a' as byte <= Unshifted(key) <= 'z' as byte
    ensures Shifted(key) == Unshifted(key) - 32
  {
    TablesChecked();
    TablesAt(0, key);
  }

  /** Everything the keyboard queues is printable ASCII or one of the control
      bytes Escape, Backspace, Tab and Newline. */
  lemma EmittedBytes(shiftHeld: bool, scancode: byte)
    ensures var r := Emitted(shiftHeld, scancode);
      r.Some? ==> (0x20 <= r.value <= 0x7E || r.value in {8, 9, 10, 27})
  {
    TablesChecked();
    TablesAt(0, KeyOf(scancode));
  }

  /** The static shift flag and the global key buffer together. */
  class KeyboardState {
    var shiftHeld: bool
    const keys: KeyBuffer

    ghost predicate Valid()
      reads this, keys, keys.buf
    {
      keys.Valid()
    }

    constructor ()
      ensures Valid() && !shiftHeld && keys.contents == [] && fresh(keys) && fresh(keys.buf)
    {
      shiftHeld := false;
      keys := new KeyBuffer();
    }

    /** `handle_scancode`: update the shift state, then queue the translated
        byte of a key press unless the table has no character for it. */
    method HandleScancode(scancode: byte)
      requires Valid()
      modifies this, keys, keys.buf
      ensures Valid()
      ensures shiftHeld == NextShift(old(shiftHeld), scancode)
      ensures var e := Emitted(old(shiftHeld), scancode);
        keys.contents == if e.Some? && old(keys.count) < CAPACITY then old(keys.contents) + [e.value]
                         else old(keys.contents)
    {
      var isRelease := scancode >= 0x80;
      var key := scancode % 0x80;
      if key == 0x2A || key == 0x36 {
        shiftHeld := !isRelease;
        return;
      }
      if isRelease {
        return;
      }
      var ascii := if shiftHeld then Shifted(key) else Unshifted(key);
      if ascii != 0 {
        keys.Push(ascii);
      }
    }
  }
}
