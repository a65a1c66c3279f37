/** drivers/vga.c: the text-mode frame buffer, 25 rows of 80 cells in one flat array. */
module Vga {
  import opened Bits

  const ROWS: nat := 25
  const COLS: nat := 80
  const CELLS: nat := 2000

  datatype Cell = Cell(character: Byte, colour: Byte)

  // VGA_COLOR(VGA_COLOUR_BLACK, VGA_COLOUR_WHITE)
  const DEFAULT_COLOUR: Byte := 0xF0
  const BLANK := Glyph(0x20)

  function Glyph(c: Byte): Cell {
    Cell(c, DEFAULT_COLOUR)
  }

  class TextBuffer {
    const memory: array<Cell>

    ghost predicate Valid() {
      memory.Length == CELLS
    }

    constructor (memory: array<Cell>)
      requires memory.Length == CELLS
      ensures this.memory == memory && Valid()
    {
      this.memory := memory;
    }

    // Coordinates outside the screen are ignored.
    method PutChar(row: nat, col: nat, c: Byte)
      requires Valid()
      modifies memory
      ensures memory[..] == if row < ROWS && col < COLS then old(memory[..])[col + COLS * row := Glyph(c)]
                            else old(memory[..])
    {
      if row >= ROWS || col >= COLS {
        return;
      }
      memory[col + COLS * row] := Cell(c, DEFAULT_COLOUR);
    }

    method ClearRow(row: nat)
      requires Valid()
      modifies memory
      ensures forall k :: 0 <= k < CELLS ==> memory[k] == if k / COLS == row then BLANK else old(memory[k])
    {
      var col := 0;
      while col < COLS
        invariant 0 <= col <= COLS
        invariant forall k :: 0 <= k < CELLS ==>
          memory[k] == if COLS * row <= k < COLS * row + col then BLANK else old(memory[k])
      {
        PutChar(row, col, 0x20);
        col := col + 1;
      }
    }

    method ClearScreen()
      requires Valid()
      modifies memory
      ensures memory[..] == seq(CELLS, _ => BLANK)
    {
      var row := 0;
      while row < ROWS
        invariant 0 <= row <= ROWS
        invariant forall k :: 0 <= k < COLS * row ==> memory[k] == BLANK
      {
        var col := 0;
        while col < COLS
          invariant 0 <= col <= COLS
          invariant forall k :: 0 <= k < COLS * row + col ==> memory[k] == BLANK
        {
          PutChar(row, col, 0x20);
          col := col + 1;
        }
        row := row + 1;
      }
    }

    // Every row moves up by one, in place; the last row is blanked.
    method ScrollUp()
      requires Valid()
      modifies memory
      ensures memory[..] == old(memory[..])[COLS..] + seq(COLS, _ => BLANK)
    {
      var row := 1;
      while row < ROWS
        invariant 1 <= row <= ROWS
        invariant forall k :: 0 <= k < (row - 1) * COLS ==> memory[k] == old(memory[k + COLS])
        invariant forall k :: (row - 1) * COLS <= k < CELLS ==> memory[k] == old(memory[k])
      {
        var col := 0;
        while col < COLS
          invariant 0 <= col <= COLS
          invariant forall k :: 0 <= k < (row - 1) * COLS + col ==> memory[k] == old(memory[k + COLS])
          invariant forall k :: (row - 1) * COLS + col <= k < CELLS ==> memory[k] == old(memory[k])
        {
          memory[(row - 1) * COLS + col] := memory[row * COLS + col];
          col := col + 1;
        }
        row := row + 1;
      }
      ClearRow(ROWS - 1);
    }
  }

  // Black on white: the upper half of a colour byte is the background.
  lemma ColourOfGlyphs(c: Byte)
    ensures var g := Glyph(c); g.character == c && g.colour / 0x10 == 15 && g.colour % 0x10 == 0
    ensures BLANK == Glyph(32)
  {
  }
}
