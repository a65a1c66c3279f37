/** drivers/console.c: the cursor over the VGA screen.  Every operation acts on the screen in place
    and is proved to act on the ghost `paper` as the reference does. */
module ConsoleDriver {
  import opened Bits
  import opened Vga
  import P = Paper

  class Console {
    const vga: TextBuffer
    var active: bool  // active_console has been set
    var row: nat
    var col: nat
    ghost var paper: P.Paper

    // The screen is the window of the paper, and (row, col) is the paper cursor seen in it.
    ghost predicate Valid()
      reads this, vga.memory
    {
      && vga.Valid()
      && (active ==>
            && P.Valid(paper)
            && row < ROWS && col < COLS
            && paper.pos == (paper.top + row) * COLS + col
            && vga.memory[..] == P.View(paper))
    }

    constructor (vga: TextBuffer)
      requires vga.Valid()
      ensures Valid() && this.vga == vga && !active
    {
      this.vga := vga;
      active, row, col := false, 0, 0;
      paper := P.FRESH;
    }

    // console_init without the timer hook: whatever was in video memory, the console starts blank.
    method Init()
      requires Valid()
      modifies this, vga.memory
      ensures Valid() && active && paper == P.FRESH
    {
      row, col := 0, 0;
      active := true;
      VgaClear();
    }

    // console_vga_putc
    method VgaPutC(c: Byte)
      requires Valid() && active
      modifies this`row, this`col, this`paper, vga.memory
      ensures Valid() && paper == P.Put(old(paper), c)
    {
      P.PutValid(paper, c);
      P.PutInView(paper, c);
      paper := P.Put(paper, c);
      if c == P.NEWLINE {
        col := 0;
        row := row + 1;
      } else {
        vga.PutChar(row, col, c);
        col := col + 1;
        if col >= COLS {
          col := 0;
          row := row + 1;
        }
      }
      if row >= ROWS {
        vga.ScrollUp();
        row := ROWS - 1;
      }
    }

    // console_vga_clear_screen, for the only console that is ever registered
    method VgaClear()
      requires vga.Valid() && active
      modifies this`row, this`col, this`paper, vga.memory
      ensures Valid() && paper == P.FRESH
    {
      vga.ClearScreen();
      row := 0;
      col := 0;
      paper := P.FRESH;
    }

    method PutC(c: Byte)
      requires Valid()
      modifies this`row, this`col, this`paper, vga.memory
      ensures Valid()
      ensures active ==> paper == P.Put(old(paper), c)
      ensures !active ==> vga.memory[..] == old(vga.memory[..])
      ensures !active ==> row == old(row) && col == old(col) && paper == old(paper)
    {
      if !active {
        return;
      }
      VgaPutC(c);
    }

    method Write(s: P.CString)
      requires Valid()
      modifies this`row, this`col, this`paper, vga.memory
      ensures Valid()
      ensures active ==> paper == P.PutAll(old(paper), P.Text(s))
      ensures !active ==> vga.memory[..] == old(vga.memory[..])
      ensures !active ==> row == old(row) && col == old(col) && paper == old(paper)
    {
      if s.Null? {
        return;
      }
      var i := 0;
      while i < |s.bytes| && s.bytes[i] != 0
        invariant 0 <= i <= |s.bytes|
        invariant Valid()
        invariant active ==> P.PutAll(paper, P.UpToNul(s.bytes[i..])) == P.PutAll(old(paper), P.Text(s))
        invariant !active ==> vga.memory[..] == old(vga.memory[..])
        invariant !active ==> row == old(row) && col == old(col) && paper == old(paper)
      {
        ghost var rest := P.UpToNul(s.bytes[i..]);
        assert rest[0] == s.bytes[i] && rest[1..] == P.UpToNul(s.bytes[i + 1..]);
        PutC(s.bytes[i]);
        i := i + 1;
      }
    }

    method Backspace()
      requires Valid()
      modifies this`row, this`col, this`paper, vga.memory
      ensures Valid()
      ensures active ==> paper == P.Erase(old(paper))
      ensures !active ==> vga.memory[..] == old(vga.memory[..])
      ensures !active ==> row == old(row) && col == old(col) && paper == old(paper)
    {
      if !active {
        return;
      }
      if col == 0 {
        if row == 0 {
          return;
        }
        row := row - 1;
        col := COLS - 1;
      } else {
        col := col - 1;
      }
      paper := P.Erase(paper);
      vga.PutChar(row, col, 0x20);
    }

    // dx and dy are C ints; the sums below must not overflow.
    method MoveCursor(dx: Int32, dy: Int32)
      requires Valid()
      requires dx <= 0x7FFF_FFFF - COLS && dy <= 0x7FFF_FFFF - ROWS
      modifies this`row, this`col, this`paper
      ensures Valid()
      ensures active ==> paper == P.Move(old(paper), dx, dy)
      ensures !active ==> row == old(row) && col == old(col) && paper == old(paper)
    {
      if !active {
        return;
      }
      var newCol, newRow := col + dx, row + dy;
      if newCol < 0 {
        newCol := 0;
      }
      if newCol >= COLS {
        newCol := COLS - 1;
      }
      if newRow < 0 {
        newRow := 0;
      }
      if newRow >= ROWS {
        newRow := ROWS - 1;
      }
      P.MovePlace(paper, row, col, dx, dy);
      col := newCol;
      row := newRow;
      paper := P.Move(paper, dx, dy);
    }

    method Clear()
      requires Valid()
      modifies this`row, this`col, this`paper, vga.memory
      ensures Valid()
      ensures active ==> paper == P.FRESH
      ensures !active ==> vga.memory[..] == old(vga.memory[..])
      ensures !active ==> row == old(row) && col == old(col) && paper == old(paper)
    {
      if !active {
        return;
      }
      VgaClear();
    }
  }
}
