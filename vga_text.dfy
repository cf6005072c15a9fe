/** VGA text mode (kernel/src/output/vga_text.rs): a 25 x 80 grid of 16-bit
    cells at 0xB8000, each a colour byte over a character byte, written at a
    cursor that moves right and down and never scrolls. */
module VgaText {
  import opened Wrappers

  const VGA_WIDTH: nat := 80
  const VGA_HEIGHT: nat := 25

  const BLACK: bv8 := 0
  const WHITE: bv8 := 15

  /** `ColourCode`: background in the high nibble, foreground in the low one. */
  datatype ColourCode = ColourCode(code: bv8)

  /** `ColourCode::new((background, foreground))`: `background << 4 | foreground`
      in a byte. */
  function NewColourCode(background: bv8, foreground: bv8): (r: ColourCode)
    ensures background < 16 && foreground < 16 ==>
              r.code >> 4 == background && r.code & 0x0F == foreground
  {
    ColourCode((background << 4) | foreground)
  }

  /** White text on a black background is 0x0F: `ColourCode::new` takes the
      background first. */
  lemma WhiteOnBlack()
    ensures NewColourCode(BLACK, WHITE) == ColourCode(0x0F)
  {
  }

  /** A colour over 15 spills into the other nibble: a bright background's high
      bit is shifted out and a foreground over 15 repaints the background. */
  lemma ColoursOver15Spill()
    ensures NewColourCode(0x1F, WHITE) == ColourCode(0xFF)
    ensures NewColourCode(BLACK, 0x1F) == ColourCode(0x1F)
  {
  }

  /** `character as u16`: the low sixteen bits of the code point. */
  function CharBits(c: char): (b: bv16)
    ensures c as int < 0x1_0000 ==> b == c as int as bv16
  {
    (c as int % 0x1_0000) as bv16
  }

  /** `generate_vga_entry`: `(code as u16) << 8 | character as u16`. */
  function Entry(colour: ColourCode, c: char): (e: bv16)
    ensures c as int < 256 ==> e >> 8 == colour.code as bv16 && e & 0xFF == c as int as bv16
  {
    var high, low := colour.code as bv16, CharBits(c);
    if c as int < 256 then
      CharBitsOfByte(c);
      BytesSideBySide(high, low);
      (high << 8) | low
    else
      (high << 8) | low
  }

  /** A character below 256 gives bits below 256. */
  lemma CharBitsOfByte(c: char)
    requires c as int < 256
    ensures CharBits(c) < 256
  {
    var n := c as int;
    assert CharBits(c) == n as bv16;
    ByteFitsInBits(n);
  }

  /** A byte value converted to sixteen bits stays below 256. */
  lemma ByteFitsInBits(n: int)
    requires 0 <= n < 256
    ensures n as bv16 < 256
  {
  }

  /** Two bytes side by side in sixteen bits come apart again. */
  lemma BytesSideBySide(high: bv16, low: bv16)
    requires high < 256 && low < 256
    ensures ((high << 8) | low) >> 8 == high && ((high << 8) | low) & 0xFF == low
  {
  }

  datatype ScreenError = RowOutOfBounds

  /** `Screen`: the cursor, the grid it writes to and the colour it writes in. */
  class Screen {
    var currentRow: nat
    var currentCol: nat
    const buffer: array2<bv16>
    const colourPair: ColourCode

    ghost predicate Valid()
      reads this
    {
      buffer.Length0 == VGA_HEIGHT && buffer.Length1 == VGA_WIDTH && currentCol < VGA_WIDTH
    }

    /** `Screen::new` over the memory at 0xB8000: the cursor at the top left,
        black on white. */
    constructor (vram: array2<bv16>)
      requires vram.Length0 == VGA_HEIGHT && vram.Length1 == VGA_WIDTH
      ensures Valid() && buffer == vram
      ensures currentRow == 0 && currentCol == 0 && colourPair == ColourCode(0x0F)
    {
      currentRow, currentCol := 0, 0;
      buffer := vram;
      colourPair := NewColourCode(BLACK, WHITE);
      WhiteOnBlack();
    }

    /** `new_line`: column 0 of the next row, which may be past the last. */
    method NewLine()
      modifies this`currentRow, this`currentCol
      ensures currentCol == 0 && currentRow == old(currentRow) + 1
    {
      currentCol := 0;
      currentRow := currentRow + 1;
    }

    /** `put_char`: a newline moves the cursor to the next line; anything else
        is written at the cursor, which then moves right, to the next line after
        column 79. Writing below the last row is an out-of-bounds panic. */
    method PutChar(c: char) returns (r: Outcome<(), ScreenError>)
      requires Valid()
      modifies this`currentRow, this`currentCol, buffer
      ensures Valid()
      ensures c == '\n' ==>
                && r.Ok? && currentCol == 0 && currentRow == old(currentRow) + 1
                && unchanged(buffer)
      ensures c != '\n' && old(currentRow) >= VGA_HEIGHT ==>
                && r == Panic(RowOutOfBounds) && unchanged(this) && unchanged(buffer)
      ensures c != '\n' && old(currentRow) < VGA_HEIGHT ==>
                && r.Ok?
                && buffer[old(currentRow), old(currentCol)] == Entry(colourPair, c)
                && (forall i, j ::
                      0 <= i < VGA_HEIGHT && 0 <= j < VGA_WIDTH && (i != old(currentRow) || j != old(currentCol))
                      ==> buffer[i, j] == old(buffer[i, j]))
                && (old(currentCol) + 1 < VGA_WIDTH ==>
                      currentRow == old(currentRow) && currentCol == old(currentCol) + 1)
                && (old(currentCol) + 1 == VGA_WIDTH ==>
                      currentRow == old(currentRow) + 1 && currentCol == 0)
    {
      if c == '\n' {
        NewLine();
        return Ok(());
      }
      if currentRow >= VGA_HEIGHT {
        return Panic(RowOutOfBounds);
      }
      var entry := Entry(colourPair, c);
      buffer[currentRow, currentCol] := entry;
      currentCol := currentCol + 1;
      if currentCol >= VGA_WIDTH {
        NewLine();
      }
      r := Ok(());
    }

    /** Every cell before (`row`, `col`) in reading order holds `entry`. */
    ghost predicate FilledUpTo(row: nat, col: nat, entry: bv16)
      requires buffer.Length0 == VGA_HEIGHT && buffer.Length1 == VGA_WIDTH
      reads buffer
    {
      forall i, j :: 0 <= i < VGA_HEIGHT && 0 <= j < VGA_WIDTH && (i < row || (i == row && j < col)) ==>
        buffer[i, j] == entry
    }

    /** `clear`: a space in every cell, row by row, and the cursor back at the
        top left. */
    method Clear()
      requires Valid()
      modifies this`currentRow, this`currentCol, buffer
      ensures Valid()
      ensures currentRow == 0 && currentCol == 0
      ensures forall i, j :: 0 <= i < VGA_HEIGHT && 0 <= j < VGA_WIDTH ==> buffer[i, j] == Entry(colourPair, ' ')
    {
      currentCol := 0;
      currentRow := 0;
      var blank := Entry(colourPair, ' ');
      for i := 0 to VGA_HEIGHT
        invariant Valid()
        invariant currentRow == i && currentCol == 0
        invariant FilledUpTo(i, 0, blank)
      {
        for j := 0 to VGA_WIDTH
          invariant Valid()
          invariant j < VGA_WIDTH ==> currentRow == i && currentCol == j
          invariant j == VGA_WIDTH ==> currentRow == i + 1 && currentCol == 0
          invariant FilledUpTo(i, j, blank)
        {
          var _ := PutChar(' ');
        }
      }
      currentCol := 0;
      currentRow := 0;
    }
  }
}
