/** The kernel's text console on a linear framebuffer.  Pixels are
    abstracted to a grid of character cells: each cell either still holds the
    cleared (all-zero) pixels or shows the glyph of one character.  The
    cursor logic (`new_line`, `write_byte`, `backspace`, `clear_screen`) is
    modelled exactly; the glyph bitmaps are not. */
module Framebuffer {
  import opened Common

  const FONT_WIDTH: nat := 8
  const FONT_HEIGHT: nat := 16
  const NEWLINE: byte := 0x0a
  const SPACE: byte := 0x20

  datatype Color = Color(r: bv8, g: bv8, b: bv8)

  const FOREGROUND: Color := Color(0xCC, 0xCC, 0xCC)
  const BACKGROUND: Color := Color(0, 0, 0)

  /** What a character cell shows. */
  datatype Cell = Cleared | Glyph(index: nat)

  /** The glyph `render_char` draws for a byte: the font has 128 glyphs. */
  function GlyphOf(c: byte): (g: Cell)
    ensures g.Glyph? && g.index < 128
    ensures c < 128 ==> g.index == c
  {
    Glyph(c % 128)
  }

  /** The cursor and the cell grid. */
  datatype Text = Text(col: nat, row: nat, cells: seq<seq<Cell>>)

  function BlankRow(cols: nat): (r: seq<Cell>)
    ensures |r| == cols && forall k :: 0 <= k < cols ==> r[k] == Cleared
  {
    seq(cols, _ => Cleared)
  }

  function BlankGrid(cols: nat, rows: nat): (r: seq<seq<Cell>>)
    ensures |r| == rows && forall i :: 0 <= i < rows ==> r[i] == BlankRow(cols)
  {
    seq(rows, _ => BlankRow(cols))
  }

  /** How far the column may run: one past the last cell, or 1 on a grid
      without columns (where every byte wraps first and then advances). */
  function ColLimit(cols: nat): nat
  {
    if cols == 0 then 1 else cols
  }

  /** The state every operation keeps: a `rows` x `cols` grid and a cursor
      on it (row 0 when there are no rows). */
  predicate Shaped(t: Text, cols: nat, rows: nat)
  {
    && |t.cells| == rows
    && (forall i :: 0 <= i < rows ==> |t.cells[i]| == cols)
    && t.col <= ColLimit(cols)
    && (t.row < rows || t.row == 0)
  }

  /** `render_char` at the cursor: the cell changes when the cursor is on the
      grid; off the grid only margin pixels outside it are touched. */
  function Render(t: Text, c: byte, cols: nat, rows: nat): (r: Text)
    requires Shaped(t, cols, rows)
    ensures Shaped(r, cols, rows) && r.col == t.col && r.row == t.row
  {
    if t.col < cols && t.row < rows then
      t.(cells := t.cells[t.row := t.cells[t.row][t.col := GlyphOf(c)]])
    else t
  }

  /** `new_line`: column 0, then down a row or, on the last row, scroll the
      grid up by one and clear the bottom row. */
  function NextLine(t: Text, cols: nat, rows: nat): (r: Text)
    requires Shaped(t, cols, rows) && rows > 0
    ensures Shaped(r, cols, rows) && r.col == 0
  {
    if t.row + 1 < rows then t.(col := 0, row := t.row + 1)
    else t.(col := 0, cells := t.cells[1..] + [BlankRow(cols)])
  }

  /** `write_byte`. */
  function Put(t: Text, b: byte, cols: nat, rows: nat): (r: Text)
    requires Shaped(t, cols, rows) && rows > 0
    ensures Shaped(r, cols, rows)
  {
    if b == NEWLINE then NextLine(t, cols, rows)
    else
      var wrapped := if t.col >= cols then NextLine(t, cols, rows) else t;
      var drawn := Render(wrapped, b, cols, rows);
      drawn.(col := drawn.col + 1)
  }

  /** `write_str`: `write_byte` for each byte in turn. */
  function PutAll(t: Text, s: seq<byte>, cols: nat, rows: nat): (r: Text)
    requires Shaped(t, cols, rows) && rows > 0
    ensures Shaped(r, cols, rows)
    decreases |s|
  {
    if s == [] then t else PutAll(Put(t, s[0], cols, rows), s[1..], cols, rows)
  }

  /** Where `backspace` would make the source underflow `max_cols - 1`. */
  predicate EraseUnderflows(t: Text, cols: nat)
  {
    t.col == 0 && t.row > 0 && cols == 0
  }

  /** `backspace`: step back one cell, to the last column of the previous
      row from column 0, and blank the cell reached; nothing at (0, 0). */
  function Erase(t: Text, cols: nat, rows: nat): (r: Text)
    requires Shaped(t, cols, rows) && !EraseUnderflows(t, cols)
    ensures Shaped(r, cols, rows)
  {
    if t.col > 0 then Render(t.(col := t.col - 1), SPACE, cols, rows)
    else if t.row > 0 then Render(t.(row := t.row - 1, col := cols - 1), SPACE, cols, rows)
    else t
  }

  /** A byte other than newline written with the cursor inside a row lands
      in the cursor's cell and moves the cursor one column right, and
      nothing else changes. */
  lemma PutInRow(t: Text, b: byte, cols: nat, rows: nat)
    requires Shaped(t, cols, rows) && rows > 0 && b != NEWLINE && t.col < cols
    ensures var r := Put(t, b, cols, rows);
      && r.col == t.col + 1 && r.row == t.row
      && r.cells == t.cells[t.row := t.cells[t.row][t.col := GlyphOf(b)]]
  {
  }

  /** With the cursor past the last column, a byte other than newline first
      wraps: it lands in column 0 of the next row (of the bottom row after a
      scroll) and the cursor ends in column 1. */
  lemma PutWraps(t: Text, b: byte, cols: nat, rows: nat)
    requires Shaped(t, cols, rows) && rows > 0 && cols > 0 && b != NEWLINE && t.col >= cols
    ensures var r := Put(t, b, cols, rows);
      && r.col == 1
      && r.row == (if t.row + 1 < rows then t.row + 1 else t.row)
      && r.cells[r.row][0] == GlyphOf(b)
  {
  }

  /** On the bottom row a newline scrolls: every row moves up by one, the
      top row is lost and the new bottom row is cleared. */
  lemma NewLineScrolls(t: Text, cols: nat, rows: nat)
    requires Shaped(t, cols, rows) && rows > 0 && t.row + 1 >= rows
    ensures var r := NextLine(t, cols, rows);
      && r.row == t.row && r.col == 0
      && (forall i :: 0 <= i < rows - 1 ==> r.cells[i] == t.cells[i + 1])
      && r.cells[rows - 1] == BlankRow(cols)
  {
  }

  /** Above the bottom row a newline moves the cursor down and leaves the
      grid alone. */
  lemma NewLineMovesDown(t: Text, cols: nat, rows: nat)
    requires Shaped(t, cols, rows) && t.row + 1 < rows
    ensures NextLine(t, cols, rows) == Text(0, t.row + 1, t.cells)
  {
  }

  /** Backspace undoes a byte written inside a row: the cursor returns and
      the cell shows a space. */
  lemma EraseUndoesPut(t: Text, b: byte, cols: nat, rows: nat)
    requires Shaped(t, cols, rows) && rows > 0 && b != NEWLINE && t.col < cols
    ensures var r := Erase(Put(t, b, cols, rows), cols, rows);
      && r.col == t.col && r.row == t.row
      && r.cells == t.cells[t.row := t.cells[t.row][t.col := GlyphOf(SPACE)]]
  {
    PutInRow(t, b, cols, rows);
    var p := Put(t, b, cols, rows);
    assert p.cells[t.row][t.col := GlyphOf(SPACE)] == t.cells[t.row][t.col := GlyphOf(SPACE)];
  }

  /** Backspace in column 0 below the top row goes to the last column of the
      row above; at (0, 0) it changes nothing. */
  lemma EraseAtLineStart(t: Text, cols: nat, rows: nat)
    requires Shaped(t, cols, rows) && t.col == 0 && cols > 0
    ensures var r := Erase(t, cols, rows);
      && (t.row > 0 ==> r.row == t.row - 1 && r.col == cols - 1 && r.cells[r.row][r.col] == GlyphOf(SPACE))
      && (t.row == 0 ==> r == t)
  {
  }

  /** Writing a run of bytes without newlines that fits in the rest of the
      row leaves them side by side in that row, starting at the cursor. */
  lemma {:induction false} PutAllInRow(t: Text, s: seq<byte>, cols: nat, rows: nat)
    requires Shaped(t, cols, rows) && rows > 0 && t.col + |s| <= cols
    requires forall k :: 0 <= k < |s| ==> s[k] != NEWLINE
    ensures var r := PutAll(t, s, cols, rows);
      && r.row == t.row && r.col == t.col + |s|
      && |r.cells| == rows && |r.cells[t.row]| == cols
      && (forall k :: 0 <= k < |s| ==> r.cells[t.row][t.col + k] == GlyphOf(s[k]))
      && (forall j :: 0 <= j < t.col ==> r.cells[t.row][j] == t.cells[t.row][j])
      && (forall i :: 0 <= i < rows && i != t.row ==> r.cells[i] == t.cells[i])
    decreases |s|
  {
    if s != [] {
      PutInRow(t, s[0], cols, rows);
      var p := Put(t, s[0], cols, rows);
      PutAllInRow(p, s[1..], cols, rows);
      var r := PutAll(t, s, cols, rows);
      forall k | 0 <= k < |s|
        ensures r.cells[t.row][t.col + k] == GlyphOf(s[k])
      {
        if k > 0 {
          assert s[1..][k - 1] == s[k];
        }
      }
    }
  }

  /** Pixel value of a colour for the given channel shifts. */
  function PixelOf(c: Color, redShift: bv8, greenShift: bv8, blueShift: bv8): bv32
    requires redShift < 32 && greenShift < 32 && blueShift < 32
  {
    ((c.r as bv32) << redShift) | ((c.g as bv32) << greenShift) | ((c.b as bv32) << blueShift)
  }

  /** The byte at bit offset `shift` of a pixel. */
  function Channel(p: bv32, shift: bv8): bv8
    requires shift <= 24
  {
    ((p >> shift) & 0xFF) as bv8
  }

  /** Channels at most 24 bits up and at least 8 bits apart. */
  predicate SeparateChannels(redShift: bv8, greenShift: bv8, blueShift: bv8)
  {
    && redShift <= 24 && greenShift <= 24 && blueShift <= 24
    && (redShift >= greenShift + 8 || greenShift >= redShift + 8)
    && (redShift >= blueShift + 8 || blueShift >= redShift + 8)
    && (greenShift >= blueShift + 8 || blueShift >= greenShift + 8)
  }

  /** When the channels do not overlap, each channel of the pixel is the
      colour's component. */
  lemma ChannelsRoundTrip(c: Color, redShift: bv8, greenShift: bv8, blueShift: bv8)
    requires SeparateChannels(redShift, greenShift, blueShift)
    ensures var p := PixelOf(c, redShift, greenShift, blueShift);
      Channel(p, redShift) == c.r && Channel(p, greenShift) == c.g && Channel(p, blueShift) == c.b
  {
  }

  /** The bytes a 32-bit pixel store at `offset` covers. */
  predicate Disjoint(o1: nat, o2: nat)
  {
    o1 + 4 <= o2 || o2 + 4 <= o1
  }

  /** On a framebuffer whose rows are at least `width` pixels apart and whose
      pixels are at least 4 bytes wide, two different on-screen pixels get
      non-overlapping 32-bit stores. */
  lemma {:induction false} PixelsDisjoint(x1: nat, y1: nat, x2: nat, y2: nat, width: nat, pitch: nat, bpp: nat)
    requires x1 < width && x2 < width && bpp >= 4 && pitch >= width * bpp
    requires x1 != x2 || y1 != y2
    ensures Disjoint(y1 * pitch + x1 * bpp, y2 * pitch + x2 * bpp)
  {
    if y1 == y2 {
      if x1 < x2 {
        MulMono(x1 + 1, x2, bpp);
      } else {
        MulMono(x2 + 1, x1, bpp);
      }
    } else if y1 < y2 {
      RowsApart(x1, y1, y2, width, pitch, bpp);
    } else {
      RowsApart(x2, y2, y1, width, pitch, bpp);
    }
  }

  /** A pixel's store ends before the next row starts. */
  lemma RowsApart(x: nat, y1: nat, y2: nat, width: nat, pitch: nat, bpp: nat)
    requires x < width && bpp >= 4 && pitch >= width * bpp && y1 < y2
    ensures y1 * pitch + x * bpp + 4 <= y2 * pitch
  {
    MulMono(x + 1, width, bpp);
    MulMono(y1 + 1, y2, pitch);
  }

  class FramebufferWriter {
    const width: nat
    const height: nat
    const pitch: nat
    const bytesPerPixel: nat
    const redShift: bv8
    const greenShift: bv8
    const blueShift: bv8
    const maxCols: nat
    const maxRows: nat
    const fg: Color
    const bg: Color
    var col: nat
    var row: nat
    var cells: seq<seq<Cell>>

    function View(): Text
      reads this
    {
      Text(col, row, cells)
    }

    ghost predicate Valid()
      reads this
    {
      && Shaped(View(), maxCols, maxRows)
      && maxCols == width / FONT_WIDTH && maxRows == height / FONT_HEIGHT
    }

    /** `new`: derive the text grid from the pixel size and clear it. */
    constructor (width: nat, height: nat, pitch: nat, bpp: nat, redShift: bv8, greenShift: bv8, blueShift: bv8)
      ensures Valid()
      ensures this.width == width && this.height == height && this.pitch == pitch
      ensures bytesPerPixel == bpp / 8
      ensures this.redShift == redShift && this.greenShift == greenShift && this.blueShift == blueShift
      ensures maxCols == width / FONT_WIDTH && maxRows == height / FONT_HEIGHT
      ensures fg == FOREGROUND && bg == BACKGROUND
      ensures View() == Text(0, 0, BlankGrid(maxCols, maxRows))
    {
      this.width := width;
      this.height := height;
      this.pitch := pitch;
      bytesPerPixel := bpp / 8;
      this.redShift := redShift;
      this.greenShift := greenShift;
      this.blueShift := blueShift;
      maxCols := width / FONT_WIDTH;
      maxRows := height / FONT_HEIGHT;
      fg := FOREGROUND;
      bg := BACKGROUND;
      col := 0;
      row := 0;
      cells := BlankGrid(width / FONT_WIDTH, height / FONT_HEIGHT);
    }

    /** `color_to_pixel`. */
    function ColorToPixel(c: Color): (p: bv32)
      requires redShift < 32 && greenShift < 32 && blueShift < 32
      reads this
      ensures SeparateChannels(redShift, greenShift, blueShift) ==>
        Channel(p, redShift) == c.r && Channel(p, greenShift) == c.g && Channel(p, blueShift) == c.b
    {
      if SeparateChannels(redShift, greenShift, blueShift) then
        ChannelsRoundTrip(c, redShift, greenShift, blueShift);
        PixelOf(c, redShift, greenShift, blueShift)
      else
        PixelOf(c, redShift, greenShift, blueShift)
    }

    /** The guard and address computation of `put_pixel`: None (nothing is
        stored) exactly when the pixel is off screen. */
    function PixelOffset(x: nat, y: nat): (r: Option<nat>)
      reads this
      ensures r.None? <==> x >= width || y >= height
      ensures r.Some? ==> r.value >= y * pitch && r.value >= x * bytesPerPixel
    {
      if x >= width || y >= height then None else Some(y * pitch + x * bytesPerPixel)
    }

    /** `clear_screen`. */
    method ClearScreen()
      requires Valid()
      modifies this
      ensures Valid()
      ensures View() == Text(0, 0, BlankGrid(maxCols, maxRows))
    {
      cells := BlankGrid(maxCols, maxRows);
      col := 0;
      row := 0;
    }

    /** `scroll_up`: the grid moves up a row and the bottom row is cleared. */
    method ScrollUp()
      requires Valid() && maxRows > 0
      modifies this
      ensures Valid() && col == old(col) && row == old(row)
      ensures cells == old(cells)[1..] + [BlankRow(maxCols)]
    {
      cells := cells[1..] + [BlankRow(maxCols)];
    }

    /** `render_char` at a cell of the grid. */
    method RenderChar(c: byte)
      requires Valid()
      modifies this
      ensures Valid() && View() == Render(old(View()), c, maxCols, maxRows)
    {
      if col < maxCols && row < maxRows {
        cells := cells[row := cells[row][col := GlyphOf(c)]];
      }
    }

    method NewLine()
      requires Valid() && maxRows > 0
      modifies this
      ensures Valid() && View() == NextLine(old(View()), maxCols, maxRows)
    {
      col := 0;
      if row + 1 < maxRows {
        row := row + 1;
      } else {
        ScrollUp();
      }
    }

    method WriteByte(b: byte)
      requires Valid() && maxRows > 0
      modifies this
      ensures Valid() && View() == Put(old(View()), b, maxCols, maxRows)
    {
      if b == NEWLINE {
        NewLine();
      } else {
        if col >= maxCols {
          NewLine();
        }
        RenderChar(b);
        col := col + 1;
      }
    }

    method Backspace()
      requires Valid() && !EraseUnderflows(View(), maxCols)
      modifies this
      ensures Valid() && View() == Erase(old(View()), maxCols, maxRows)
    {
      if col > 0 {
        col := col - 1;
        RenderChar(SPACE);
      } else if row > 0 {
        row := row - 1;
        col := maxCols - 1;
        RenderChar(SPACE);
      }
    }

    /** `write_str` of the `fmt::Write` implementation. */
    method WriteStr(s: seq<byte>)
      requires Valid() && maxRows > 0
      modifies this
      ensures Valid() && View() == PutAll(old(View()), s, maxCols, maxRows)
    {
      var k := 0;
      while k < |s|
        invariant k <= |s| && Valid()
        invariant PutAll(old(View()), s, maxCols, maxRows) == PutAll(View(), s[k..], maxCols, maxRows)
      {
        assert s[k..][1..] == s[k + 1..];
        WriteByte(s[k]);
        k := k + 1;
      }
    }
  }
}
