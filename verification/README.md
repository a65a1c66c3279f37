# SnakeOS: a verified model

SnakeOS is a small x86-64 kernel with its own boot loader. This project models its state-changing code in
Dafny, states what that code is for, and proves it: the terminal stack from scancodes to screen cells, the
line editor, printing, the timer, the lock and interrupt protocols, the FAT12 loader and the page tables.

The code is modelled in its own form: the screen, the line buffer, the handler table and memory are arrays
that loops update in place, the console, tty, keyboard, timer, ring and lock are classes. Each method is proved
against a pure specification, and the results below are proved about those specifications. Protocols that are
about interleaving (locks, registration of interrupt handlers) are also modelled as machines over their single
instructions or stores, with interrupts arriving at any point a schedule chooses.

The parts and their main results:

- **Screen** (`vga.dfy`, `paper.dfy`, `console.dfy`, `layout.dfy`). The 80x25 screen that `console_vga_putc`
  scrolls by copying is at all times a window on an unbounded sheet that is never copied. After a clear, a
  printed text leaves the last 25 rows of a layout that is defined without any cursor. Printing and then
  erasing as many characters restores the cursor exactly if the first cell has not scrolled away.
- **Line editor and keyboard** (`input.dfy`, `tty.dfy`, `transcript.dfy`, `keyboard.dfy`). The shifted buffer is
  a zipper. Echo and line agree after every command of a run exactly if each command's cursor travel stays
  within one screen row, so always for lines of up to 69 characters, and over any run that only types at the
  end of the line and submits. For every stream of scancodes with that property the screen is the last 25 rows
  of boot messages, submitted lines and current line. Backspace undoes an insertion on the screen exactly if the
  insertion reaches no further row. Key releases other than of shift never matter. `kmain.dfy` states the screen
  for the cells of video memory after booting from any contents. Every printable code types its character, every
  other one nothing; where the echo of a command leaves the console is stated for lines in step with it or not.
- **Locks** (`spinlock.dfy`). Kernel code is free of panics, and of a held lock with interrupts on, under every
  interleaving with well-behaved handlers exactly if it takes no lock twice, releases none unheld and, where it
  runs with interrupts on outside its locks, releases the lock it took first after the others. Handlers never
  nest, and an interrupt leaves no trace in the code it interrupted.
- **Interrupts** (`pic.dfy`, `irq.dfy`). Between any two stores of any registrations, with interrupts anywhere,
  table and masks are those of the requests done so far and of the stores made for the next one, and nothing
  stays in service. A line has a handler whenever it is unmasked, under all schedules, exactly if every request
  for it brings one. End-of-interrupt undoes acknowledgement from every in-service state in which the line has
  priority, and a registered line's interrupt calls the handler of its last request.
- **Boot** (`fat12.dfy`, `chs.dfy`, `loader.dfy`, `paging.dfy`). On a volume as it is written, with a packed FAT,
  directory records and linked chains, the loader finds the chain of a file, and it leaves exactly the file in
  memory, whatever data sectors and memory hold, if and only if the clusters are within reach of the registers and
  the file fits its segment; both files are then byte for byte at their segments. The loading loop comes to its end
  in the table if and only if following the chain finds an end there; a chain that neither ends nor leaves the
  table is loaded for ever. The page tables map the first GiB to itself and nothing else, by the 4-level walk of
  the Intel SDM, volume 3A, section 4.5.
- **Printing, ring, clock** (`kprint.dfy`, `ring.dfy`, `clock.dfy`): what each directive prints reads back as its
  argument, the ring is a bounded queue, the hook runs once a second; over the bit operators of `bits.dfy`.

What the proofs show about the code itself:

- A slave interrupt line (8 to 15) delivers nothing after its `irq_request` unless line 2 has been requested as
  well: `i8259A_unmask_irq` never unmasks the cascade (`Irq.RegistrationResult`,
  `Irq.SlaveLineExample`).
- `irq_request` accepts a NULL handler and unmasks its line all the same (`Irq.HandledIffGiven`,
  `Irq.NullHandlerExample`).
- Re-registering a live line is not atomic: an interrupt between the two stores of the table entry pairs the new
  handler with the old cookie (`Irq.NoMixedEntry`, `Irq.MixedEntryExample`).
- The loader reads behind the FAT, in what is left of the root directory, exactly if some entry is neither an end
  marker nor a cluster of the table, such as 0xFF7, the format's mark for a bad cluster (`Fat12.StaysInsideIff`,
  `Fat12.BadClusterExample`); it then goes on with what it finds there (`Loader.Boot.LoadTurn`).
- `disk_read` keeps only the low byte of cluster + 31, and BX wraps after 128 sectors, so a chain leaves its file
  in memory, on every disk, exactly if its clusters are at most 224 and it fits the segment
  (`Loader.LoadedAsMeantIff`); for one disk `Loader.LoadsImageIff` has the exact condition.
- `load_root_dir` multiplies by BX although only BL was set; the size of its read depends on BH
  (`Loader.DirSectorsExact`, `Loader.DirSectorsExample`).
- The shifted digit table of the keyboard holds the pound sign as two bytes, so only the shifted digits 0, 1
  and 2 type their glyph (`Keyboard.ShiftedDigitGlyph`).
- One flag serves both shift keys; it is off while one of them is still down after the other was released
  (`Keyboard.ShiftFlagMeansDown`, `Keyboard.TwoShiftsExample`).
- Cursor moves do not cross screen rows, so an edit that has to leaves line and echo out of step
  (`Transcript.StepAgrees`, `Keyboard.LeftAcrossRowsExample`).
- When the 64-bit tick counter wraps, the clock hook runs after 16 ticks and sees zero (`Clock.HookAtWrap`).
- `itoa_dec` prints INT_MIN as a lone sign (`Kprint.DecRoundTrip`). Signed overflow is undefined in C; the model
  gives the negation its two's complement value.
- The comment of `include/irq_chip.h` promises registration; `irq_set_chip` keeps a chip without `irq_init`
  registered although it reports failure (`Irq.IrqCore.SetChip`). The question in the comment at
  boot/x86/stage0/utils.asm:98 is settled: both parities agree (`Fat12.RemainderIsParity`).

## Model

| member | source | states |
|---|---|---|
| Vga.TextBuffer.PutChar | drivers/vga.c:29-36 | writes one cell of the flat array; coordinates off the screen are ignored |
| Vga.TextBuffer.ClearRow | drivers/vga.c:38-42 | blanks exactly the cells of one row |
| Vga.TextBuffer.ClearScreen | drivers/vga.c:44-50 | whatever was there, every cell is blank |
| Vga.TextBuffer.ScrollUp | drivers/vga.c:52-62 | the in-place copy drops the first 80 cells and appends 80 blanks |
| Vga.ColourOfGlyphs | drivers/vga.c:13-36 | every cell written is the character in black on white |
| ConsoleDriver.Console.Init | drivers/console.c:195-205 | from any video memory: blank screen, cursor at the origin |
| ConsoleDriver.Console.VgaPutC | drivers/console.c:49-70 | screen and cursor stay the window of a sheet on which the character is put without copying |
| ConsoleDriver.Console.VgaClear | drivers/console.c:76-87 | the console shows a fresh sheet |
| ConsoleDriver.Console.PutC | drivers/console.c:90-96 | the same for the active console; without one neither screen nor cursor changes |
| ConsoleDriver.Console.Write | drivers/console.c:98-103 | prints the bytes before the first NUL, nothing for a null pointer or without an active console |
| ConsoleDriver.Console.Backspace | drivers/console.c:105-124 | steps back one cell of the sheet, across row ends, and blanks it; stops at the first cell of the window; without an active console nothing changes |
| ConsoleDriver.Console.MoveCursor | drivers/console.c:126-149 | moves within the window, both coordinates clamped, sheet untouched; without an active console nothing changes |
| ConsoleDriver.Console.Clear | drivers/console.c:151-157 | a fresh sheet if a console is active, otherwise nothing changes |
| Paper.RunStaysInWindow | drivers/console.c:49-157 | any run of console calls keeps the cursor in the window and everything below the window blank |
| Paper.MoveNearest | drivers/console.c:126-149 | for any dx and dy the cursor ends in the row and the column of the window nearest to those asked for, the sheet untouched |
| Paper.TextOf | drivers/console.c:98-103 | the text of a string are its bytes up to the first NUL; a null pointer has none |
| Paper.PutInView | drivers/console.c:49-70 | seen through the window, putting is one cell written and, past the last row, one row scrolled |
| Paper.PutAllLine | drivers/console.c:98-103 | a text without newlines advances the cursor by its length, writes just those cells, and scrolls no further than needed |
| Paper.WriteThenErase | drivers/console.c:49-124 | n characters printed and n erased: cursor restored if and only if its cell is still in the window, and then just those n cells are blank |
| TextLayout.LayoutSnoc | drivers/console.c:49-70 | the cursor-free layout grows by one character as the eager wrap at column 80 does |
| TextLayout.LayoutConcat | drivers/console.c:98-103 | layout composes: more text only continues the last row |
| TextLayout.PutAllCarries | drivers/console.c:98-103 | printing on a sheet that carries a layout gives the layout of the longer text, cursor at its end |
| TextLayout.PrintAfterClear | drivers/console.c:76-103 | clear and print s: the screen is the last 25 rows of the layout of s and the cursor is at its end |
| Tty.NegatedIsMinus | kernel/tty.c:57-58 | the size_t product with -1, cut to an int, is the negative count |
| Tty.Tty.CloseGap | kernel/tty.c:39-42 | the shifting loop deletes the character before the cursor and keeps the rest |
| Tty.Tty.OpenGap | kernel/tty.c:85-90 | the shifting loop inserts at the cursor and keeps the rest |
| Tty.Tty.RedrawTail | kernel/tty.c:96-97 | prints the text behind the cursor |
| Tty.Tty.StepBackOverTail | kernel/tty.c:99-101 | one console step left for each character behind the cursor |
| Tty.Tty.Backspace | kernel/tty.c:33-60 | new line and new screen are those of the zipper deletion and its echo |
| Tty.Tty.CursorLeft | kernel/tty.c:62-69 | one character moves from left to right of the cursor; the console follows |
| Tty.Tty.CursorRight | kernel/tty.c:71-78 | one character moves from right to left of the cursor; the console follows |
| Tty.Tty.InsertChar | kernel/tty.c:80-103 | insertion in the zipper and its echo; a full buffer ignores it |
| Tty.Tty.Newline | kernel/tty.c:105-116 | empty line, newline and prompt echoed |
| Tty.Tty.HandleKey | kernel/tty.c:118-149 | an event has the effect of its command; releases have none |
| Tty.EditOnText | kernel/tty.c:33-116 | every command as an edit of a text at a cursor place, nothing else of the text changed, a full line refuses insertions |
| Tty.CommandOfEvent | kernel/tty.c:118-149 | an event with a character inserts it, one without does what its key says, releases do nothing |
| Tty.EchoOff | kernel/tty.c:45-109 | without echo the line is edited and the console left alone |
| Tty.PromptSpelled | kernel/tty.c:110 | the bytes written on submission |
| Tty.LineFits | kernel/tty.c:80-116 | any stream of commands keeps the line within 256 characters |
| Tty.MovesKeepText | kernel/tty.c:62-78 | cursor moves keep the text and undo each other |
| Tty.InsertThenDelete | kernel/tty.c:33-103 | backspace undoes an insertion if and only if the buffer was not full or the cursor is at its start |
| Transcript.EchoOfMoves | kernel/tty.c:62-78 | on any valid sheet a step left stays at column 0, a step right at column 79, and both move one place otherwise |
| Transcript.EchoOfInsert | kernel/tty.c:92-102 | on any valid sheet: character and tail printed, then back over the tail as far as the row reaches |
| Transcript.EchoOfDelete | kernel/tty.c:45-58 | on any valid sheet: one place back in the row, tail and blank printed, back over both as far as the row reaches |
| Transcript.EchoOfSubmit | kernel/tty.c:105-110 | on any valid sheet: the ten characters of the prompt at the start of the next row, no other cell changed, one row scrolled if it must |
| Transcript.AgreementOnScreen | kernel/tty.c:33-149 | agreement means: the screen is the last 25 rows of earlier rows and prompted line, cursor at its place |
| Transcript.StepAgrees | kernel/tty.c:33-149 | a command keeps line, screen and console cursor in step if and only if its cursor travel stays in one screen row; all rows above are unchanged, submitting starts a fresh row |
| Transcript.RunAgrees | kernel/tty.c:33-149 | over any run: agreement after every command if and only if every command's travel stays in a row |
| Transcript.ShortLinesKeep | kernel/tty.c:33-149 | runs whose line never exceeds 69 characters always agree |
| Transcript.TypingAtTheEndKeeps | kernel/tty.c:80-116 | any run that types at the end and submits agrees after every command, at every length |
| Transcript.InsertThenDeleteOnScreen | kernel/tty.c:33-103 | backspace undoes an accepted insertion - line, cursor, window and every cell - if and only if it reaches no further row |
| Transcript.BootAgrees | init/kmain.c:17-28 | boot messages that end a row, then the prompt, give an agreeing empty line |
| Transcript.BootAgreesAfterNewline | init/kmain.c:17-28 | the same for any messages that end in a newline |
| Keyboard.ScancodeBits | drivers/keyboard.c:165-166 | the two masks split release flag and key |
| Bits.AndIsBitwise | drivers/keyboard.c:165-166 | the model of & is bit by bit, for all integers and masks |
| Bits.OrIsBitwise | boot/x86/stage1/utils_protected_mode.asm:213-227 | the model of or is bit by bit |
| Keyboard.KeyboardDriver.TrackModifiers | drivers/keyboard.c:163-178 | shift follows both shift keys, caps lock toggles on press only |
| Keyboard.KeyboardDriver.HandleScancode | drivers/keyboard.c:160-201 | modifiers, line and screen after a scancode; lock released and IF restored on both ways out |
| Keyboard.EventOfCode | drivers/keyboard.c:180-200 | the event built from a code asks the tty for the command of that code |
| Keyboard.CapsIsParity | drivers/keyboard.c:173-177 | caps is the parity of caps-lock make codes, for every stream |
| Keyboard.ShiftIsLastDirection | drivers/keyboard.c:168-172 | shift is the direction of the last shift code, for every stream |
| Keyboard.ShiftFlagMeansDown | drivers/keyboard.c:168-172 | the flag says whether a shift key is down, unless the last shift code released one while the other is down |
| Keyboard.TwoShiftsExample | drivers/keyboard.c:168-172 | after the codes 0x2A, 0x36, 0xAA the right shift key is down and the flag off |
| Keyboard.ReleasesIgnored | drivers/keyboard.c:160-201 | dropping all releases but those of shift changes neither keyboard, line nor screen |
| Keyboard.LetterCase | drivers/keyboard.c:120-125 | a letter key types its letter, upper case if exactly one of shift and caps lock is on |
| Keyboard.RowsOfKeys | drivers/keyboard.c:41-90 | scancodes run along the QWERTY rows and the digit row |
| Keyboard.TypedCharacters | drivers/keyboard.c:116-152 | no code types a newline or NUL |
| Keyboard.DigitKeys | drivers/keyboard.c:81-90 | the digit row types its ten digits, with shift the stored bytes listed |
| Keyboard.PunctuationKeys | drivers/keyboard.c:93-104 | the eleven punctuation keys and the space bar type their character, with shift the other one |
| Keyboard.OtherCodes | drivers/keyboard.c:106-107 | the codes that type are those listed; all others but the four editing codes do nothing |
| Keyboard.EditingCodes | drivers/keyboard.c:43-50 | each editing command has exactly one code, whatever the modifiers |
| Keyboard.ShiftedDigitGlyph | drivers/keyboard.c:127-133 | shifted digits type the glyph of the UK layout for 0, 1 and 2 only; 3 types 0xC2, later digits the glyph of the one before |
| Keyboard.ReceiveIsHandle | drivers/keyboard.c:160-201 | a scancode stream acts on the session as its list of commands |
| Keyboard.ScreenOfSession | drivers/keyboard.c:160-201 | from boot, any scancode stream whose travel stays in rows shows the last 25 rows of messages, submitted lines and current line; the row of the window's top is determined |
| Keyboard.LeftAcrossRowsExample | kernel/tty.c:62-103 | from boot, seventy letters and one step left put line and screen out of step |
| Kmain.Interrupts | drivers/keyboard.c:160-201 | one interrupt per scancode acts on keyboard, line and screen as the whole stream |
| Kmain.Boot | init/kmain.c:14-28 | from any video memory: messages and prompt printed, keyboard idle, line empty |
| Kmain.Run | init/kmain.c:14-33 | the cells of video memory, and row and column of the console cursor, after booting and any scancode stream whose travel stays in rows |
| Spinlock.LockStepKeeps | kernel/spinlock.c:37-46 | every instruction of spin_lock keeps lock word, saved flags and IF consistent |
| Spinlock.UnlockStepKeeps | kernel/spinlock.c:48-55 | every instruction of spin_unlock keeps lock word, saved flags and IF consistent |
| Spinlock.StepKeeps | kernel/spinlock.c:6-55 | every instruction, interrupt and return keeps the invariant of the whole stack of contexts |
| Spinlock.RunKeeps | kernel/spinlock.c:6-55 | the invariant holds over every schedule |
| Spinlock.InterruptsOutsideLocks | arch/x86/idt.c:7-60 | an interrupt is taken only with no lock held, never above a handler |
| Spinlock.InterruptTaken | arch/x86/idt.c:5-60 | an interrupt is taken exactly while IF is set, and clears it |
| Spinlock.InterruptLeavesNoTrace | kernel/spinlock.c:6-55 | an interrupt's handler runs to its end and returns to the interrupted instruction, IF set, no lock held |
| Spinlock.NestedHandlerIsGood | kernel/spinlock.c:37-55 | well-nested code that leaves no lock behind may run as a handler |
| Spinlock.RunKeepsHome | kernel/spinlock.c:20-55 | the kernel code keeps, under all that interrupts it, the IF value it started with as the one to return to |
| Spinlock.InterruptFlagRestored | kernel/spinlock.c:20-55 | over every schedule, whenever the kernel code holds no lock IF is what it was at the start |
| Spinlock.SavedFlagsKept | kernel/spinlock.c:44-45 | the saved flags of a held lock are overwritten only by its own spin_lock |
| Spinlock.SafeIffDisciplined | kernel/spinlock.c:37-55 | no panic and no held lock with IF set over all interleavings, if and only if the code keeps the lock discipline |
| Spinlock.UndisciplinedUnsafe | kernel/spinlock.c:37-55 | for undisciplined code, a schedule that panics or has a lock held with IF set |
| Spinlock.DisciplinedCompletes | kernel/spinlock.c:37-55 | disciplined code run without interrupts comes to its end, holding the locks it should |
| Spinlock.NestedIsDisciplined | kernel/spinlock.c:37-55 | last-in first-out use keeps the discipline |
| Spinlock.UninterruptedLock | kernel/spinlock.c:37-46 | the instructions of spin_lock together; panic on a held lock |
| Spinlock.UninterruptedUnlock | kernel/spinlock.c:48-55 | the instructions of spin_unlock together; panic on a free lock |
| Spinlock.SpinLock.constructor | kernel/spinlock.c:31-35 | a new lock is free |
| Spinlock.SpinLock.Lock | kernel/spinlock.c:37-46 | a free lock is taken, IF saved in it and cleared; a held one is the panic, with IF cleared |
| Spinlock.SpinLock.Unlock | kernel/spinlock.c:48-55 | a held lock is freed, IF as saved; a free one is the panic, with nothing changed |
| Pic8259.ChipEoi | arch/x86/i8259.c:117-124 | on one controller, end-of-interrupt clears just the bit of a line with priority |
| Pic8259.EoiUndoesAcknowledge | arch/x86/i8259.c:117-124 | for all 16 lines and every in-service state in which the line has priority, end-of-interrupt undoes acknowledgement |
| Pic8259.SpuriousMaster | arch/x86/i8259.c:117-124 | the end-of-interrupt of a spurious IRQ 7 is harmless if and only if nothing is in service on the master |
| Pic8259.SpuriousSlave | arch/x86/i8259.c:117-124 | the end-of-interrupt of a spurious IRQ 15 is harmless if and only if nothing is in service on the slave |
| Pic8259.InitialVectors | arch/x86/i8259.c:46-56 | line irq is delivered at vector 0x20 + irq, the slave is wired to line 2, both controllers in 8086 mode |
| Pic8259.PriorityRule | arch/x86/i8259.c:117-124 | while one line is in service exactly the unmasked lines of a higher priority get through, all slave lines ranking as line 2 |
| Pic8259.ByteBitsValue | arch/x86/i8259.c:84-88 | the bits of a port byte add up to it |
| Pic8259.OneShiftedIs | arch/x86/i8259.c:85 | 1 << line is the power of two |
| Pic8259.MaskFrame | arch/x86/i8259.c:73-109 | masking and unmasking change their own line and none of the other fifteen |
| Pic8259.OneBit | arch/x86/i8259.c:84-108 | the read-modify-write with 1 << line changes one bit |
| Pic8259.Ports.Init | arch/x86/i8259.c:39-61 | vectors 0x20 and 0x28, all lines masked, nothing in service |
| Pic8259.Ports.MaskAll | arch/x86/i8259.c:64-68 | all sixteen mask bits set |
| Pic8259.Ports.MaskIrq | arch/x86/i8259.c:73-88 | the port traffic masks the line |
| Pic8259.Ports.UnmaskIrq | arch/x86/i8259.c:93-109 | the port traffic unmasks the line |
| Pic8259.Ports.EndOfInterrupt | arch/x86/i8259.c:117-124 | the port traffic ends the interrupt on one or both controllers |
| Irq.IrqCore.HandleIrq | kernel/irq.c:24-40 | runs the registered handler with its cookie, or none, and always ends the interrupt; halts on an unknown number |
| Irq.IrqCore.SetChip | kernel/irq.c:42-57 | success leaves the controllers initialized, all lines masked; failure leaves them alone; in both cases what is registered |
| Irq.IrqCore.Request | kernel/irq.c:59-78 | on success entry stored and line unmasked, on failure nothing changes |
| Irq.InitialAllMasked | arch/x86/i8259.c:39-68 | the state after initialization has every line masked and nothing in service |
| Irq.LastEntryIsLast | kernel/irq.c:71-74 | the descriptor of the last request for a line, or the empty one if there is none |
| Irq.StepKeeps | kernel/irq.c:59-78 | each single store and each interrupt keeps, for any requests: entry and mask of every line are those of the requests done and of the stores made since, nothing in service, a call goes unhandled only on a line requested without a handler |
| Irq.RegistrationSafe | kernel/irq.c:59-78 | the same over every schedule of stores and interrupts |
| Irq.UnmaskedHandled | kernel/irq.c:59-78 | in every such state an unmasked line for which all requests bring handlers has one |
| Irq.MissingHandlerShows | kernel/irq.c:59-78 | requests for a line of which one lacks a handler: a schedule that leaves the line unmasked without one |
| Irq.HandledIffGiven | kernel/irq.c:59-78 | for each of the 16 lines: it has a handler whenever it is unmasked, under all schedules, if and only if every request for it brings one |
| Irq.NullHandlerExample | kernel/irq.c:59-78 | the request (1, NULL, 0) leaves line 1 unmasked, and its interrupt unhandled |
| Irq.RegistrationResult | kernel/irq.c:59-78 | under every schedule that completes the requests: an entry is that of the last request for its line, or empty without one; unmasked if and only if requested; deliverable if and only if requested and, on the slave, line 2 requested too |
| Irq.InterruptDispatched | kernel/irq.c:24-40 | a deliverable interrupt calls the entry's handler with its cookie and leaves the controllers as they were; another one has no effect |
| Irq.DeliveryResult | kernel/irq.c:24-78 | after any run that completes the requests, an interrupt on a requested line calls the handler of the last request with its cookie |
| Irq.RegistrationCompletes | kernel/irq.c:59-78 | the code's own steps, without interrupts, complete all requests |
| Irq.SlaveLineExample | kernel/irq.c:59-78 | a completed request for line 8 alone: the line is unmasked and still delivers nothing |
| Irq.NoMixedEntry | kernel/irq.c:71-74 | when an interrupt can see half of a table entry |
| Irq.MixedEntryExample | kernel/irq.c:71-74 | a reachable run that calls the new handler with the old cookie |
| Fat12.UnpackPack | boot/x86/stage0/utils.asm:112-132 | the loader's read of entry n of a packed table is entry n |
| Fat12.EntryFromBytes | boot/x86/stage0/utils.asm:112-132 | two entries in three bytes, nibble by nibble |
| Fat12.ChainLinks | boot/x86/stage0/utils.asm:134-138 | a chain link by link: entries below 0xFF8 name the next cluster, the last is 0xFF8 or more |
| Fat12.PackedChain | boot/x86/stage0/utils.asm:101-141 | the chain written into a packed table is the chain found in it |
| Fat12.OneTurn | boot/x86/stage0/utils.asm:134-138 | a turn ends exactly at 0xFF8 and above and goes on to the entry otherwise |
| Fat12.PathIsTurns | boot/x86/stage0/utils.asm:101-141 | the clusters loaded are those the turns come to |
| Fat12.RemainderIsParity | boot/x86/stage0/utils.asm:98-125 | the remainder of 3n/2 is the parity of n |
| Fat12.Follow | boot/x86/stage0/utils.asm:101-141 | following with a set of unvisited clusters finds a chain with all its links |
| Fat12.ChainAcyclic | boot/x86/stage0/utils.asm:101-141 | a chain that ends visits no cluster twice |
| Fat12.EndsIffFollowed | boot/x86/stage0/utils.asm:101-141 | the chain from a cluster ends if and only if following it finds the end |
| Fat12.LoopEndsIff | boot/x86/stage0/utils.asm:101-141 | after some number of turns the loop has ended inside the table if and only if following finds an end; the clusters loaded are then that chain, no more than the table has |
| Fat12.RunsForeverIff | boot/x86/stage0/utils.asm:101-141 | a loop that does not leave the table never stops if and only if following finds no end |
| Fat12.NeverOutside | boot/x86/stage0/utils.asm:112-138 | with an entry for every 12-bit number the table is never left |
| Fat12.StaysInsideIff | boot/x86/stage0/utils.asm:112-138 | from every cluster of the table and for any number of turns the loop reads the table only, if and only if every entry is an end marker or a cluster of the table |
| Fat12.BadClusterExample | boot/x86/stage0/utils.asm:119-138 | in a FAT of 4608 bytes in which cluster 2 names 0xFF7 the second turn reads behind the FAT, and two bytes 0xFF there end the loop on a chain the FAT does not hold |
| Fat12.FollowInLonger | boot/x86/stage0/utils.asm:119-121 | what lies behind the FAT makes no difference to a chain that ends in it |
| Chs.LbaToChs | boot/x86/stage0/utils.asm:204-217 | the register moves compute the packed conversion |
| Chs.ConvertIsExact | boot/x86/stage0/utils.asm:204-217 | unpacked, the registers name the sector asked for if and only if the cylinder is below 1024; sector and head in range |
| Chs.ConvertInjective | boot/x86/stage0/utils.asm:204-217 | two sectors in reach have different registers |
| Loader.RootDirRead | boot/x86/stage0/utils.asm:8-30 | sector 19 and the number of sectors asked for, as a function of what BH holds |
| Loader.DirSectorsExample | boot/x86/stage0/utils.asm:11-28 | with 29 in BH, 142 sectors are asked for |
| Loader.DirSectorsExact | boot/x86/stage0/utils.asm:11-28 | the 14 directory sectors are asked for if and only if the high word of the product is even |
| Loader.DirSectorsRounded | boot/x86/stage0/utils.asm:18-23 | for any number of records, the sectors that hold what is divided, in one byte |
| Loader.SectorsAt | boot/x86/stage0/utils.asm:161-180 | the bytes of several sectors, in the order of the disk |
| Loader.Boot.DiskRead | boot/x86/stage0/utils.asm:161-198 | byte by byte the sectors asked for in their order, at ES:BX, nothing else changed |
| Loader.Boot.CompareName | boot/x86/stage0/utils.asm:56-62 | equal if and only if all eleven bytes are |
| Loader.Boot.SearchFile | boot/x86/stage0/utils.asm:53-79 | the word at offset 26 of the first record with the name, not found if and only if no record has it |
| Loader.RecordAt | boot/x86/stage0/utils.asm:53-78 | in a record written as name, 15 bytes, cluster, size: the name found is that name only, the cluster read that cluster |
| Loader.FileOnVolume | boot/x86/stage0/stage0.asm:44-83 | on a disk with a packed FAT, a record and a linked chain, the loader finds exactly that chain |
| Loader.LbaReadIs | boot/x86/stage0/utils.asm:107 | AL is the low byte of cluster + 31 |
| Loader.ImageAt | boot/x86/stage0/utils.asm:105-110 | byte by byte, the sectors read and the sectors meant for a chain |
| Loader.LastWriteStays | boot/x86/stage0/utils.asm:101-141 | chains of any length, BX wrapping: of the clusters loaded to one place the last stays, other places keep their contents |
| Loader.Boot.LoadSector | boot/x86/stage0/utils.asm:105-110 | one cluster read with the truncated LBA, BX advanced and wrapped |
| Loader.Boot.ReadEntry | boot/x86/stage0/utils.asm:112-132 | the FAT entry of the cluster |
| Loader.Boot.LoadTurn | boot/x86/stage0/utils.asm:101-138 | one turn from any 12-bit cluster number: its sector loaded, the next number or the end, also where the entry lies behind the FAT |
| Loader.Boot.LoadTurns | boot/x86/stage0/utils.asm:101-141 | any number of turns, also of a chain that never ends: the path of that many clusters is loaded |
| Loader.Boot.LoadFile | boot/x86/stage0/utils.asm:101-141 | terminates for every chain that ends, with the effect of the whole chain, truncations included |
| Loader.FetchedStored | boot/x86/stage0/utils.asm:101-141 | any chain that fits the segment leaves the sectors read, truncated numbers included, in order at the destination and nothing else |
| Loader.LoadsImageIff | boot/x86/stage0/utils.asm:101-141 | on one disk, from every memory the chain leaves exactly its file, if and only if it fits the segment and each sector read holds what the one meant holds |
| Loader.LoadedAsMeantIff | boot/x86/stage0/utils.asm:101-141 | on every disk with given boot, FAT and directory sectors the chain leaves exactly its file, if and only if its clusters are at most 224 and it fits the segment |
| Loader.LoadableImage | boot/x86/stage0/utils.asm:101-141 | such a chain leaves its sectors in order at the destination and nothing else |
| Loader.Boot.FindFiles | boot/x86/stage0/stage0.asm:44-59 | the directory in its buffer and both first clusters in their words of the boot sector, or a halt if and only if a name is missing; from 0x7C00 on no other byte changes |
| Loader.Boot.LoadFiles | boot/x86/stage0/stage0.asm:61-83 | FAT in the buffer, then both chains at 0x80000 and 0x90000 with all truncations, by the clusters in the two words |
| Loader.Boot.StartUp | boot/x86/stage0/stage0.asm:35-90 | from the disk: a halt if and only if a name is missing, otherwise both files at their segments, the sectors read if they fit and the file byte for byte if it is in reach; from 0x7C00 on nothing outside the two words, the buffer and the segments changes |
| Paging.Machine.RepStosd | boot/x86/stage1/utils_protected_mode.asm:206-208 | ecx words of eax from edi on, nothing else |
| Paging.Machine.FillL2 | boot/x86/stage1/utils_protected_mode.asm:222-232 | 512 present, writable, huge entries, nothing else |
| Paging.Machine.SetUpPaging | boot/x86/stage1/utils_protected_mode.asm:199-232 | from any memory: every word of the three tables, nothing outside 0x1000..0x4FFF written |
| Paging.IdentityBelowOneGiB | boot/x86/stage1/utils_protected_mode.asm:199-232 | the hardware walk maps every address below 1 GiB to itself, writable, and finds every other 48-bit address not present |
| Kprint.FillDigits | kernel/kprint.c:32-35 | the digit loop leaves the digits in reverse and stays in its buffer |
| Kprint.CopyReversed | kernel/kprint.c:39-44 | the reverse loop writes the text and its terminator and stays in its buffer |
| Kprint.ItoaDec | kernel/kprint.c:15-45 | the buffer holds the decimal text, NUL-terminated |
| Kprint.ItoaHex | kernel/kprint.c:48-73 | the buffer holds the hexadecimal text, NUL-terminated |
| Kprint.DecRoundTrip | kernel/kprint.c:15-45 | parsing the text gives the number back if and only if it is not INT_MIN; at most 11 characters, no leading zeros |
| Kprint.HexRoundTrip | kernel/kprint.c:48-73 | parsing the text gives every 32-bit number back; at most 10 characters, no leading zeros |
| Kprint.DecDirective | kernel/kprint.c:83-88 | %d prints an optional sign and digits without leading zeros that read back as the argument, unless it is INT_MIN |
| Kprint.HexDirective | kernel/kprint.c:89-94 | %x prints 0x and upper-case digits that read back as the argument, 0 alone for zero |
| Kprint.StringDirective | kernel/kprint.c:95-98 | %s prints the bytes before the NUL, nothing for a null pointer |
| Kprint.CharDirective | kernel/kprint.c:99-102 | %c prints the character |
| Kprint.OtherDirective | kernel/kprint.c:103-106 | any other conversion prints the percent sign and itself and takes no argument |
| Kprint.PrintArg | kernel/kprint.c:83-102 | one conversion prints the text of its argument, as the five directive lemmas say |
| Kprint.Print | kernel/kprint.c:75-113 | the format loop prints the rendered text, up to the first NUL of the format; surplus arguments are ignored |
| Kprint.PrintFirst | kernel/kprint.c:81-109 | one turn of the loop prints the first directive or character and moves on past it |
| Kprint.PlainRender | kernel/kprint.c:107-109 | a format without % and NUL prints as it stands, whatever the arguments |
| Kprint.RenderConcat | kernel/kprint.c:80-110 | a format and then another with the arguments left over print as their concatenation does at once |
| Ring.RingArithmetic | include/circ_buf.h:26-49 | the four masked macros are count, space, and their parts before the end of the buffer; one place stays free |
| Ring.MaskIsMod | include/circ_buf.h:15-26 | masking with size - 1 is the remainder, for negative differences too |
| Ring.CircBuf.AdvanceHead | include/circ_buf.h:15-18 | head moves on by one place, around the end |
| Ring.CircBuf.AdvanceTail | include/circ_buf.h:20-23 | tail moves on by one place, around the end |
| Ring.CircBuf.Readable | include/circ_buf.h:33-41 | as many elements as counted, the first part in one piece |
| Ring.CircBuf.Produce | include/circ_buf.h:15-31 | appends to the queue, refused if and only if size - 1 elements are in it |
| Ring.CircBuf.Consume | include/circ_buf.h:20-26 | takes the oldest element, refused if and only if the queue is empty |
| Clock.TimerCore.HandleTick | kernel/timer.c:40-49 | one tick; the hook runs when a second is complete |
| Clock.TimerCore.RegisterSecsHook | kernel/timer.c:24-27 | the hook is replaced |
| Clock.HookOncePerSecond | kernel/timer.c:34-49 | from any moment on the hook runs once for each completed second and sees it |
| Clock.TicksCount | kernel/timer.c:40-49 | n ticks add n, modulo 2 to the 64; without a hook nothing runs |
| Clock.HookFromBoot | kernel/timer.c:34-49 | after any n ticks from zero the hook has run n / 100 times, run k at k seconds |
| Clock.HookAtWrap | kernel/timer.c:40-49 | from any moment up to the wrap of the counter: one run per completed second, then one at the wrap, 16 ticks after the last, that sees zero |
| Clock.ClockReadsBack | drivers/console.c:164-182 | the digits read back as the seconds modulo 360000, minutes and seconds below 60, colons between |
| Clock.DrawClock | drivers/console.c:164-188 | the last eight cells of the screen hold the clock, no others change |

## Left out

- The clock overlay on the running console: it writes cells behind the console's back, so the screen results are for runs without it; its digits and its cells are proved separately.
- More than one console: `console_init` registers one, so the branch for an inactive console of drivers/console.c:80-84 cannot be reached.
- ConsoleDriver.Console.MoveCursor: asks that column plus dx and row plus dy do not overflow an int, which C leaves undefined.
- Kmain.Run: a scancode that arrives while the prompt is still being printed, as it can since init/kmain.c:22 has set IF, is not part of the run; interrupts other than the keyboard's do not touch the screen in this run, and the boot messages end in a newline, as those of init/kmain.c do.
- Tty.Tty.HandleKey: the tty is modelled with an initialised console, as init/kmain.c:17-27 orders it.
- Kprint.Print: asks that no `%` stands at the end of the format and that every conversion has an argument of its type; otherwise the source reads beyond the format or the arguments.
- Spinlock.SpinLock.Lock: the panic is a result here; its message and the halt after it are not modelled.
- Spinlock.SafeIffDisciplined: one CPU, no exceptions and no non-maskable interrupts; of RFLAGS only IF is kept, and kernel code changes IF only through locks.
- Irq.RegistrationSafe: handlers do not register handlers themselves, and run with interrupts off to their end-of-interrupt; spurious interrupts are treated per interrupt in the two Spurious lemmas.
- Irq.NoMixedEntry: the two fields of an entry are taken to be stored one at a time, in the order of their declaration; C leaves this to the compiler.
- Irq.IrqCore.HandleIrq: handlers are names in a call log; what they do is modelled where they are (keyboard, timer).
- ConsoleDriver.Console.Init: the registration of the clock hook, drivers/console.c:207, is not part of the method; what the hook does is in `clock.dfy`.
- Loader.Boot.DiskRead: the disk answers every read within a track, and a read across tracks is not modelled; retries and messages are not modelled, nor is the DMA limit of the floppy controller.
- Loader.Boot.StartUp: asks that both files, if both are found, have chains that end in the FAT, since the code does not come back from others in general, and that BH makes the directory read 14 sectors.
- Loader.Boot.LoadFile: asks that the chain ends; of others Loader.Boot.LoadTurns has any number of turns.
- Loader.Boot.FindFiles: memory is modelled without the stack, which the code keeps below 0x7C00, and without what the BIOS stores in its own area.
- Loader.Boot.LoadTurn: a first cluster of 0x1000 or more, which no FAT12 directory holds, is not loaded in the model.
- Clock.HookOncePerSecond: up to the wrap of the 64-bit counter; Clock.HookAtWrap has the wrap.
- Paging.Machine.SetUpPaging: the closing message that follows the cited lines is not printed.
- Paging.Machine.RepStosd: the direction flag is clear; enabling paging itself, the mode switches, CPUID and A20 are not modelled.
- Ring.CircBuf.Produce: the header has no such function; it and Consume are the two uses the macros are written for.
- Register saving and the vector table of arch/x86/idt.asm, descriptor slicing in arch/x86/idt.c and arch/x86/gdt.c, port programming in drivers/i8042.c and drivers/i8253.c.
- drivers/cdev.c and lib/util.c: short linear loops.
- drivers/init_ram.c and the memory map of boot/x86/stage1/utils_real_mode.asm.
- Glyphs: characters are bytes; what the video card draws for them is not modelled.
