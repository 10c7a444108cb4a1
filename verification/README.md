# Verified model of the DoomNoKern kernel's input, console, archive and queue code

This project models, in Dafny 4.11, the parts of the kernel that carry state and
arithmetic, and proves properties of the model for all inputs, all interleavings
and all sequences of calls. `dafny verify dfyconfig.toml` verifies it.

The main line follows a key press from the interrupt to `read()`:

| file | contents |
|---|---|
| `Bytes.dfy` | bytes, signed `char`, small sequence lemmas |
| `KeyRing.dfy` | the 256-slot ring; `kbd_get` as a machine of single memory accesses that interrupts may separate |
| `ScanCodes.dfy` | the scan-code set 1 transducer and its four tables |
| `Keyboard.dfy` | the keyboard driver as a class |
| `LineEditor.dfy` | the cooked-mode editor as a fold over keys, and what the fold means |
| `TextScreen.dfy` | the 80x25 console, as a function on screens and as a class |
| `Echo.dfy` | the echo of the editor, compared with what the editor holds |
| `Tty.dfy` | `_read` on standard input as a class, and any sequence of reads |
| `InputPath.dfy` | all of it together: interrupts interleaved with a program that reads |
| `AtomicReads.dfy` | that program as a run of the atomic reads of `Tty.dfy` |

Beside it stand the descriptor table (`FdTable.dfy`), the newc archive reader with
a printer (`Hex.dfy`, `Cpio.dfy`, `CpioArchive.dfy`), mode 13h drawing and palettes
(`Vga13Draw.dfy`, `Vga13Palette.dfy`), and the macros of `sys/queue.h`
(`Links.dfy`, `TailQueue.dfy`, `SinglyLinked.dfy`, `DoublyLinked.dfy`).

Code that updates state in place is a class or a method over arrays and records;
each such method's contract equates the new state with a function of the old one,
and the theorems are lemmas about that function. A pointer to a link slot
(`tqe_prev`, `tqh_last`) is modelled as the record that starts with that slot, which
is what the casts in `TAILQ_LAST` and `TAILQ_PREV` rely on.

## What the code does not keep, and exactly when

- keyboard.h says that a negative answer means an empty ring. `kbd_get` also gives
  one for a byte of 0x80 or above, since `char` is signed (`KeyRing.GetTakesFront`,
  with a ring in `KeyRing.NegativeThoughOccupied`). A cooked read takes such a byte
  for "nothing" and loses it: no read ever returns one, on either layout
  (`InputPath.OnlyAsciiReturned`), although the Spanish layout has a key that queues
  0xA4 and, with shift, 0xA5 (`InputPath.SpanishEnyeIsQueued`). The edited text is
  what it would have been exactly when every such byte arrives on a full line
  (`LineEditor.AsciiLossExactly`, with differing sessions in `LineEditor.EnyeIsLost`).
- The screen shows the line being edited after every keystroke exactly when no
  erase key takes a character off the line while the cursor is in column 0, where
  `vga_backspace` does nothing (`Echo.EchoAgreesExactly`). An `a` typed in column 79
  and erased stays on the screen (`Echo.ErasedButShown`).
- The echo of a raw read prints the caller's buffer as a C string. It shows the keys
  that were read exactly when none is 0 and a NUL already lay behind them
  (`Tty.RawEchoExactly`); `Tty.StaleEcho` is a buffer of which more is echoed.
- `rgb32_to_enhanced_index` gives a nearest colour of its cube exactly when neither
  red nor green is 91 (`Vga13Palette.EnhancedNearestExactly`); colour 0x5B0000 is one
  that it misses (`Vga13Palette.NinetyOneMisses`).
- The comments on the quantisers say 0xRRGGBBAA; the macros take red from bits 16
  to 23, and the model follows the macros (`Vga13Palette.Channels`).
- A full line of 255 characters is delivered without its newline
  (`LineEditor.NewlineExactly`), and `seen_e0` is stored but never read, so the
  code after 0xE0 is an ordinary one (`ScanCodes.ExtendedIsIgnored`).

## Model

| member | source | states |
|---|---|---|
| KeyRing.PutAppends | kernel/src/drivers/keyboard.c:22-25 | the byte is appended to the pending bytes, or dropped exactly when 255 are pending; the tail and the slot under it are untouched |
| KeyRing.GetTakesFront | kernel/src/drivers/keyboard.c:27-32 | the oldest pending byte is removed and returned as a signed char; the answer is negative exactly on an empty ring or a byte of 0x80 and above |
| KeyRing.NegativeThoughOccupied | kernel/src/drivers/keyboard.c:27-32 | a ring holding one byte, 0xA4, answers -92 |
| KeyRing.ProduceKeeps | kernel/src/drivers/keyboard.c:22-25 | at any point of `kbd_get`, an interrupt keeps what the reader has loaded true, never writes the tail, and drops a byte only with 255 pending |
| KeyRing.ConsumeKeeps | kernel/src/drivers/keyboard.c:27-32 | each single access of `kbd_get` keeps the invariant, never writes the head or the bytes, and the last one returns the next accepted byte |
| KeyRing.FifoSafe | kernel/src/drivers/keyboard.c:19-32 | in every interleaving the bytes consumed are a prefix of those accepted, and these are the bytes offered, in order, without those dropped |
| KeyRing.AccessesRefineGet | kernel/src/drivers/keyboard.c:27-32 | without interrupts, the accesses in either load order amount to one atomic `kbd_get` |
| ScanCodes.FlagsMeaning | kernel/src/drivers/keyboard.c:138-147 | after any trace each shift flag is set exactly when the key's last code was a make, caps is the parity of the 0x3A codes, `seen_e0` tells that 0xE0 occurred |
| ScanCodes.ExtendedIsIgnored | kernel/src/drivers/keyboard.c:135-138 | removing every 0xE0 from a trace changes neither the output nor the flags that matter |
| ScanCodes.LetterCase | kernel/src/drivers/keyboard.c:149-161 | after any trace, on both layouts, a letter key emits upper case exactly when shift differs from caps |
| ScanCodes.OtherKeys | kernel/src/drivers/keyboard.c:152-166 | any other key emits its table entry for the shift state, whatever caps says, and nothing when that entry is 0; the rows below give the entries by value |
| ScanCodes.LetterKeysType | kernel/src/drivers/keyboard.c:39-94 | after any trace, on both layouts, codes 0x10 to 0x19, 0x1E to 0x26 and 0x2C to 0x32 emit the letters of the QWERTY rows, capital when just one of shift and caps lock is on |
| ScanCodes.CommonKeysType | kernel/src/drivers/keyboard.c:39-94 | after any trace, on both layouts, 0x1C emits 0x0A, 0x0E emits 0x08, 0x39 a space, 0x01 escape, 0x2B a backslash or bar, and the keypad its characters |
| ScanCodes.UsKeysType | kernel/src/drivers/keyboard.c:39-55 | after any trace, what each digit and symbol key of the US layout emits without and with shift |
| ScanCodes.EsKeysType | kernel/src/drivers/keyboard.c:74-94 | the same for the Spanish layout, where 0x0D and 0x0F emit nothing |
| ScanCodes.OthersAreSilent | kernel/src/drivers/keyboard.c:138-166 | every other scan code, each release and modifier included, emits nothing |
| ScanCodes.DecodeRange | kernel/src/drivers/keyboard.c:39-94 | no trace queues a 0 or a carriage return, and the US layout queues only ASCII |
| Keyboard.Driver.Store | kernel/src/drivers/keyboard.c:22-25 | `kbd_put` on the array refines the ring function and appends unless 255 bytes are pending |
| Keyboard.Driver.Fetch | kernel/src/drivers/keyboard.c:27-32 | `kbd_get` on the array refines the ring function |
| Keyboard.Driver.Interrupt | kernel/src/drivers/keyboard.c:131-172 | flags and queue after an interrupt are those of the transducer; nothing happens when status bit 0 is clear |
| Keyboard.Driver.ReadInto | kernel/src/drivers/keyboard.c:178-186 | `kbd_read` returns the longest run of pending bytes below 0x80, at most `max`, and removes it and one byte more when a byte of 0x80 or above ended it |
| LineEditor.BufferIsLastRises | kernel/src/kernel/stubs.c:143-175 | position d of the edit buffer holds the one key that took the clamped 0..255 walk of the key stream from d to d+1 for the last time |
| LineEditor.LastRiseUnique | kernel/src/kernel/stubs.c:153-175 | there is only one such key |
| LineEditor.LinesAreWellFormed | kernel/src/kernel/stubs.c:149-163 | a completed line has 1 to 255 bytes, no erase key, no CR, a newline only at its end, and there unless it is full |
| LineEditor.NewlineExactly | kernel/src/kernel/stubs.c:158-163 | Enter adds one line to those completed, the edit buffer with at most a newline after it, which is there exactly when fewer than 255 characters are retained |
| LineEditor.KeyMeaning | kernel/src/kernel/stubs.c:149-175 | for each byte value: 0x08 and 0x7F take the last character off, 0x0A and 0x0D complete the line, any other is appended unless 255 are held |
| LineEditor.PlainLine | kernel/src/kernel/stubs.c:149-180 | a text of any length without those four bytes, and Enter, give one line: the text and a newline, or its first 255 characters |
| LineEditor.LinesAreIndependent | kernel/src/kernel/stubs.c:142-170 | what follows an Enter is edited as if nothing came before it |
| LineEditor.EraseUndoes | kernel/src/kernel/stubs.c:152-156 | either erase key undoes a typed character exactly when the line was not full |
| LineEditor.AsciiLossExactly | kernel/src/kernel/stubs.c:145-147 | dropping the bytes of 0x80 and above leaves all intermediate sessions the same exactly when each arrives on a full line |
| LineEditor.AsciiLines | kernel/src/kernel/stubs.c:145-180 | from ASCII keys come ASCII lines |
| LineEditor.EnyeIsLost | kernel/src/kernel/stubs.c:145-147 | the line of 0xA4 and Enter, and the one left when 0xA4 is dropped, differ |
| TextScreen.PutcKeeps | kernel/src/drivers/video_text.c:57-82 | one character keeps the cursor on screen, moves it one step along the 2000-cell tape, or to column 0 of the row (0x0D) or of the next row (0x0A), or one column back if there is one (0x08), and leaves the hardware cursor bytes equal to row*80+col except after a backspace in column 0 before any update |
| TextScreen.WriteKeeps | kernel/src/drivers/video_text.c:39-86 | after any text the cursor is on screen, and the hardware cursor is right unless only backspaces were written |
| TextScreen.ClearSyncs | kernel/src/drivers/video_text.c:46-55 | clearing blanks every cell and homes both cursors |
| TextScreen.Tape | kernel/src/drivers/video_text.c:66-86 | n plain characters leave the cursor n steps along the circular tape, each cell holding the last character that landed on it and all others unchanged |
| TextScreen.LinesOnScreen | kernel/src/drivers/video_text.c:66-86 | after any number of lines of any length, each with a newline, line i starts in column 0 of the row where the lines before it end, what has not been overwritten by wrapping is shown there, and the rows not reached are unchanged |
| TextScreen.TapeCoversScreen | kernel/src/drivers/video_text.c:76-80 | every cell is on the tape |
| TextScreen.Console.SetCursor | kernel/src/drivers/video_text.c:39-43 | for any row and column the two bytes written to the cursor registers rebuild row*80+col modulo 2^16 |
| TextScreen.Console.ClearScreen | kernel/src/drivers/video_text.c:46-55 | the double loop refines the clear function |
| TextScreen.Console.PutChar | kernel/src/drivers/video_text.c:66-82 | `vga_putc` on the cell memory refines the screen function |
| TextScreen.Console.WriteText | kernel/src/drivers/video_text.c:84-86 | `vga_write` refines the fold of `vga_putc` |
| Echo.RuboutWrites | kernel/src/kernel/stubs.c:27-31 | `"\b \b"` blanks the cell before the cursor and steps back, but in column 0 blanks the cell under the cursor and stays |
| Echo.EchoAgreesExactly | kernel/src/kernel/stubs.c:152-175 | after every keystroke the cells show the line, blanks where it was longer, and the old screen elsewhere, with the cursor behind the line, exactly when no rubout happens in column 0 |
| Echo.ShortLinesAreSafe | kernel/src/kernel/stubs.c:152-175 | a line that stays within columns 0 to 79 of its row meets that condition |
| Echo.EnterEchoed | kernel/src/kernel/stubs.c:159-160 | the echo of Enter writes no cell and puts the cursor in column 0 of the next row, the one below the end of a line that is shown |
| Echo.EchoContinues | kernel/src/kernel/stubs.c:152-175 | what is typed after an Enter is echoed as on the screen that it left |
| Echo.ErasedButShown | kernel/src/kernel/stubs.c:152-156 | on any screen with the cursor in column 79, typing `a` and erasing it leaves the line empty and the `a` shown |
| Tty.Terminal.EchoChar | kernel/src/kernel/stubs.c:27-31 | the screen after one echoed character, unchanged with echo off |
| Tty.Terminal.HandOver | kernel/src/kernel/stubs.c:134-140 | min(have, count) bytes are copied in order, the rest stays, `pos + have` is unchanged |
| Tty.Terminal.EditLine | kernel/src/kernel/stubs.c:142-180 | the loop stops at the first end of line with the edit buffer of the keys before it, and the screen is the echo of the keys |
| Tty.Terminal.PrepareLine | kernel/src/kernel/stubs.c:158-164 | the newline is added unless the line is full, and `pos + have` is the stored length |
| Tty.Terminal.ReadCooked | kernel/src/kernel/stubs.c:128-181 | a cooked read delivers a remainder if there is one and else edits a line; result, remainder and answers used do not depend on the echo flag |
| Tty.Terminal.ReadRaw | kernel/src/kernel/stubs.c:117-126 | a raw read returns the first run of keys, at most `count`, never returns for 0, leaves the remainder of the cooked line alone, and echoes the buffer up to its first NUL |
| Tty.RawEchoExactly | kernel/src/kernel/stubs.c:115-126 | the text echoed is the keys returned exactly when none is 0 and the byte behind them is a NUL |
| Tty.StaleEcho | kernel/src/kernel/stubs.c:115-126 | of one key read into a buffer that holds a character and a NUL behind it, both are echoed |
| Tty.Terminal.CopyRun | kernel/src/drivers/keyboard.c:178-186 | `kbd_read` on the answers: keys up to `count` or the first "nothing" |
| Tty.Terminal.Read | kernel/src/kernel/stubs.c:115-127 | the mode chooses between the two, with what they promise of result, remainder and screen |
| Tty.OneLinePerCall | kernel/src/kernel/stubs.c:133-170 | a cooked call returns min(available, count) bytes of a single line: a remainder, or one new line made of all the keys it used |
| Tty.ChunkingConserves | kernel/src/kernel/stubs.c:115-170 | over any calls with any counts, bytes delivered followed by the remainder are the lines edited from the keys that cooked reads used: none lost, repeated or reordered, whatever raw reads come in between |
| Tty.EveryKeyIsUsed | kernel/src/kernel/stubs.c:115-170 | over any calls, the keys used by cooked and by raw reads are together exactly the keys given, in order, and raw reads return theirs unchanged |
| Tty.RawReadTakesKeys | kernel/src/kernel/stubs.c:117-126 | a raw read returns all the keys among the answers it uses, at least one and at most `count` |
| Tty.RawReadStops | kernel/src/kernel/stubs.c:117-126 | a raw read ends with its `count`-th key or with the first "nothing" after a key, and waits exactly until then |
| Tty.CookedReadBlocks | kernel/src/kernel/stubs.c:133-162 | a cooked read waits exactly while there is no remainder and no answer is a 0x0A or 0x0D |
| InputPath.InterruptKeeps | kernel/src/drivers/keyboard.c:131-172 | an interrupt at any point keeps the system invariant |
| InputPath.HandleKeeps | kernel/src/kernel/stubs.c:144-180 | acting on one answer keeps the system invariant |
| InputPath.RemainderIsReturned | kernel/src/kernel/stubs.c:134-140 | a read called with a remainder returns its first min(count, length) bytes at once, keeps the others and changes nothing else |
| InputPath.EnterReturnsCookedRead | kernel/src/kernel/stubs.c:158-170 | the action by which an Enter ends a read returns what the class method's contract says for the answers it got |
| InputPath.ReturnedIsPrefix | kernel/src/kernel/stubs.c:133-170 | the system invariant makes the bytes returned a prefix of the lines edited from the ASCII bytes accepted |
| InputPath.NothingWithheld | kernel/src/kernel/stubs.c:133-170 | with the ring empty and no key in flight, every byte of every completed line is returned or prepared |
| InputPath.EndToEnd | kernel/src/kernel/stubs.c:128-181 | in every interleaving of interrupts, memory accesses and reads, the bytes returned are a prefix of the lines edited from the ASCII bytes accepted, and with the remainder are all of them once the ring is empty |
| InputPath.CodesAreRead | kernel/src/drivers/keyboard.c:131-136 | the scan codes taken are the data of the interrupts that found status bit 0 set, in order |
| InputPath.ScanCodesToRead | kernel/src/drivers/keyboard.c:131-172 | with no byte dropped, the bytes returned are a prefix of the lines edited from the ASCII bytes that those scan codes decode to, and with the remainder are all of them once the ring is empty and no key is in flight |
| InputPath.AsciiScanCodesToRead | kernel/src/drivers/keyboard.c:131-172 | the same for the lines as typed when every decoded byte is below 0x80, which holds on the US layout |
| InputPath.OnlyAsciiReturned | kernel/src/kernel/stubs.c:145-146 | in every interleaving and on either layout no read returns a byte of 0x80 or above |
| InputPath.SpanishEnyeIsQueued | kernel/src/drivers/keyboard.c:74-94 | on the Spanish layout scan code 0x27 queues 0xA4, and 0xA5 with shift |
| AtomicReads.ReadsAreAtomic | kernel/src/kernel/stubs.c:128-181 | in every interleaving the bytes returned and the remainder are those of atomic cooked reads with the same counts, in order, on the answers of `kbd_get` |
| AtomicReads.CallsAreReads | kernel/src/kernel/stubs.c:115-133 | these counts are those of the reads called, one for each |
| FdTable.OpenTakesLowest | kernel/src/kernel/stubs.c:236-272 | an open succeeds exactly when the volume mounts, the mode is valid, fewer than 16 are live and FatFs agrees; it gives the lowest free descriptor, and a failed open changes no descriptor |
| FdTable.OpenErrors | kernel/src/kernel/stubs.c:236-267 | which error an open fails with: 5 without a volume, 22 for access mode 3, 24 with 16 live, else that of FatFs; the volume stays mounted once it was |
| FdTable.OpenByFlags | kernel/src/kernel/stubs.c:240-272 | for flags given by bits: modes 0, 1 and 2 open and 3 does not, bit 3 alone is the append flag, the others change neither |
| FdTable.EmfileExactly | kernel/src/kernel/stubs.c:262-267 | an open that mounts and has a valid mode fails with EMFILE exactly with 16 live descriptors or when `f_open` answers `FR_TOO_MANY_OPEN_FILES` |
| FdTable.EmfileMeansFull | kernel/src/kernel/stubs.c:81-84 | without that answer, which needs the file locking that ffconf.h turns off, EMFILE means exactly that 16 are live |
| FdTable.LiveIsOpenSince | kernel/src/kernel/stubs.c:191-199 | after any sequence of opens and closes a descriptor is live exactly when some open gave it and no later close named it, with the `O_APPEND` bit of that open as its append flag |
| FdTable.CloseAnswers | kernel/src/kernel/stubs.c:191-199 | a close answers 0 exactly for 0, 1, 2 and for a live descriptor that `f_close` accepts, else -1 with that error, or with EBADF and nothing else changed when it is not live |
| FdTable.SecondCloseFails | kernel/src/kernel/stubs.c:191-199 | in any run, a descriptor closed and not given by an open since fails to close with EBADF, even if the first close failed |
| FdTable.Table.EnsureMounted | kernel/src/kernel/stubs.c:39-45 | mounts once, EIO otherwise |
| FdTable.Table.Alloc | kernel/src/kernel/stubs.c:81-84 | the scan finds the lowest free entry, EMFILE if none |
| FdTable.Table.Get | kernel/src/kernel/stubs.c:85-89 | found exactly for live descriptors |
| FdTable.Table.Free | kernel/src/kernel/stubs.c:90-93 | removes the descriptor and no other |
| FdTable.Table.TakeSlot | kernel/src/kernel/stubs.c:262-271 | an entry is taken and given back when `f_open` fails |
| FdTable.Table.OpenFile | kernel/src/kernel/stubs.c:236-272 | `_open` on the array refines the map of live descriptors |
| FdTable.Table.CloseFile | kernel/src/kernel/stubs.c:191-199 | `_close` refines it too, freeing the entry even when `f_close` fails |
| Hex.Hex32 | kernel/src/kernel/faults.c:5-8 | prints the eight hexadecimal digits |
| Hex.Hx8 | kernel/src/drivers/cpio.c:8-16 | accumulates eight characters, valid digits or not, in 32 bits |
| Hex.HexRoundTrip | kernel/src/drivers/cpio.c:8-16 | parsing undoes printing for every 32-bit number, and printing undoes parsing up to letter case for every eight digits |
| Hex.OneMoreDigit | kernel/src/drivers/cpio.c:8-16 | each digit, by the value of its character, is added to sixteen times the number before it |
| Cpio.Find | kernel/src/drivers/cpio.c:20-43 | the loop refines the search function and terminates |
| Cpio.Next | kernel/src/drivers/cpio.c:40 | each turn moves at least a header forward, to a 4-aligned address |
| Cpio.StrCmpMeaning | kernel/src/drivers/cpio.c:31-36 | a comparison is equal exactly on the string with its NUL, and leaves the image exactly when that is cut off inside the string |
| Cpio.SearchIsSound | kernel/src/drivers/cpio.c:23-40 | on any image, what is found is 4-aligned, inside the image, and the data of the first header with that name on the chain of headers, before any trailer; the search leaves the image only at a header whose name is cut off |
| Cpio.SearchIsComplete | kernel/src/drivers/cpio.c:23-40 | conversely, on any image, such a first header is found, and such a cut-off name is run over |
| Cpio.SearchEnds | kernel/src/drivers/cpio.c:23-33 | the search ends at anything but the text 070701 and at a member named TRAILER!!! |
| Cpio.TerminatedNamesNeverOverrun | kernel/src/drivers/cpio.c:29-36 | when every visited name has its NUL inside the image, no comparison leaves it |
| CpioArchive.PrintedText | kernel/src/drivers/cpio.c:23-40 | the header text that the printer gives: 070701 at 0, file size at 54, name size at 94, name and NUL at 110 |
| CpioArchive.ReadsPrintedArchive | kernel/src/drivers/cpio.c:20-43 | on any printed archive with a trailer at a 4-aligned address, the contents of the first member with that name are found, and nothing exactly when there is none before the trailer |
| Vga13Draw.ClearFrame | kernel/src/drivers/video_vga13.c:62-64 | paints the whole frame |
| Vga13Draw.PutPixel | kernel/src/drivers/video_vga13.c:66-68 | changes that pixel if it is on screen, nothing else |
| Vga13Draw.HLine | kernel/src/drivers/video_vga13.c:70-78 | changes exactly the on-screen pixels of the line |
| Vga13Draw.VLine | kernel/src/drivers/video_vga13.c:80-91 | changes exactly the on-screen pixels of the line |
| Vga13Draw.RectFill | kernel/src/drivers/video_vga13.c:93-105 | changes exactly the on-screen pixels of the rectangle |
| Vga13Draw.PixelPainted | kernel/src/drivers/video_vga13.c:66-105 | the frame by pixel coordinates, 320 bytes to a row |
| Vga13Draw.RectIsAnyLoop | kernel/src/drivers/video_vga13.c:66-105 | a filled rectangle equals its pixel-by-pixel, row-by-row and column-by-column drawing, for every position and size |
| Vga13Palette.BuildPalette | kernel/src/drivers/video_vga13.c:125-155 | every entry the loops store shows the colour given by arithmetic on its index |
| Vga13Palette.PaletteByValue | kernel/src/drivers/video_vga13.c:125-155 | entries 0 to 15 are black, 16+36r+6g+b is the cube colour (51r, 51g, 51b), 232+k the grey 255k/23, each channel as the nearest of 64 DAC levels |
| Vga13Palette.PackedChannels | kernel/src/drivers/video_vga13.c:158-174 | red, green and blue are bits 16-23, 8-15 and 0-7 |
| Vga13Palette.IndexByValue | kernel/src/drivers/video_vga13.c:162-174 | a packed colour has index 16+36r+6g+b exactly when each channel is within 25 of 51r, 51g and 51b |
| Vga13Palette.IndexIsNearest | kernel/src/drivers/video_vga13.c:162-174 | the index stands for the cube colour nearest in squared distance, off by at most 25 in each channel |
| Vga13Palette.EntryShowsNearest | kernel/src/drivers/video_vga13.c:125-174 | in the table built, that entry holds the DAC values of that nearest colour |
| Vga13Palette.CubeColoursRoundTrip | kernel/src/drivers/video_vga13.c:162-174 | cube colours map back to their own index |
| Vga13Palette.BuildEnhancedPalette | kernel/src/drivers/video_vga13.c:184-202 | every entry the loops store shows the colour given by arithmetic on its index |
| Vga13Palette.EnhancedPaletteByValue | kernel/src/drivers/video_vga13.c:184-202 | entry 32r+4g+b is the colour (255r/7, 255g/7, 85b), each channel as the nearest of 64 DAC levels |
| Vga13Palette.EnhancedIndexBijective | kernel/src/drivers/video_vga13.c:209-220 | the levels and the indexes 0 to 255 correspond one to one |
| Vga13Palette.EnhancedColoursRoundTrip | kernel/src/drivers/video_vga13.c:209-220 | level colours map back to their own index |
| Vga13Palette.EnhancedNearestExactly | kernel/src/drivers/video_vga13.c:209-220 | the entry at the index of a colour stands for a nearest colour of the cube exactly when neither red nor green is 91 |
| Vga13Palette.NinetyOneMisses | kernel/src/drivers/video_vga13.c:209-220 | 0x5B0000 is taken to a colour at squared distance 361, with another at 324 |
| Links.ChainUnique | kernel/include/newlib/sys/queue.h:727-730 | the heap determines the sequence a head stands for |
| Links.WalkBefore | kernel/include/newlib/sys/queue.h:281-283 | the walk of a removal stops at the element before |
| Links.WalkToLast | kernel/include/newlib/sys/queue.h:531-532 | the walk of a concatenation terminates at the last element |
| TailQueue.Init | kernel/include/newlib/sys/queue.h:767-771 | an empty queue |
| TailQueue.InsertHead | kernel/include/newlib/sys/queue.h:798-809 | the full heap invariant holds of the sequence with the element in front |
| TailQueue.InsertTail | kernel/include/newlib/sys/queue.h:811-819 | the same with the element at the end |
| TailQueue.InsertAfter | kernel/include/newlib/sys/queue.h:773-786 | the same with the element after the given one |
| TailQueue.InsertBefore | kernel/include/newlib/sys/queue.h:788-796 | the same with the element before the given one, without the head |
| TailQueue.Remove | kernel/include/newlib/sys/queue.h:839-855 | the same without the element |
| TailQueue.Concat | kernel/include/newlib/sys/queue.h:712-721 | the first queue holds both sequences, the second none |
| TailQueue.Swap | kernel/include/newlib/sys/queue.h:857-872 | the queues exchange their sequences, empty ones and a queue with itself included |
| TailQueue.Last | kernel/include/newlib/sys/queue.h:821-822 | the double dereference gives the last element, null when empty |
| TailQueue.LastFast | kernel/include/newlib/sys/queue.h:831-832 | the fast form agrees with it |
| TailQueue.Prev | kernel/include/newlib/sys/queue.h:836-837 | the double dereference gives the previous element, null for the first |
| TailQueue.Foreach | kernel/include/newlib/sys/queue.h:727-730 | visits the sequence in order |
| TailQueue.ForeachReverse | kernel/include/newlib/sys/queue.h:747-750 | visits it in reverse |
| SinglyLinked.ListRemove | kernel/include/newlib/sys/queue.h:275-296 | the list without the element |
| SinglyLinked.ListConcat | kernel/include/newlib/sys/queue.h:217-228 | the concatenation, with the second list empty |
| SinglyLinked.InsertHead | kernel/include/newlib/sys/queue.h:384-388 | queue with the element in front, last slot kept right |
| SinglyLinked.InsertTail | kernel/include/newlib/sys/queue.h:390-394 | queue with the element at the end |
| SinglyLinked.InsertAfter | kernel/include/newlib/sys/queue.h:378-382 | queue with the element after the given one |
| SinglyLinked.RemoveHead | kernel/include/newlib/sys/queue.h:423-427 | queue without its first element |
| SinglyLinked.RemoveAfter | kernel/include/newlib/sys/queue.h:417-421 | queue without the element after the given one |
| SinglyLinked.Remove | kernel/include/newlib/sys/queue.h:403-415 | queue without the element, found by a walk |
| SinglyLinked.Concat | kernel/include/newlib/sys/queue.h:341-347 | the concatenation, with the second queue empty |
| SinglyLinked.Swap | kernel/include/newlib/sys/queue.h:434-445 | the queues exchange their sequences, empty ones and a queue with itself included |
| SinglyLinked.Last | kernel/include/newlib/sys/queue.h:396-399 | the record of the last slot is the last element |
| DoublyLinked.InsertHead | kernel/include/newlib/sys/queue.h:584-590 | list with the element in front |
| DoublyLinked.InsertAfter | kernel/include/newlib/sys/queue.h:567-574 | list with the element after the given one |
| DoublyLinked.InsertBefore | kernel/include/newlib/sys/queue.h:576-582 | list with the element before the given one |
| DoublyLinked.Remove | kernel/include/newlib/sys/queue.h:599-610 | list without the element |
| DoublyLinked.Concat | kernel/include/newlib/sys/queue.h:522-537 | the concatenation, with the second list empty |
| DoublyLinked.Swap | kernel/include/newlib/sys/queue.h:612-620 | the lists exchange their sequences, a list with itself included |
| DoublyLinked.Prev | kernel/include/newlib/sys/queue.h:594-597 | the previous element, null for the first |

## Left out

- FatFs and the disk: `f_mount`, `f_open` and `f_close` are parameters that answer anything; `_read` and `_write` on files, `_lseek`, `_fstat` and the directory calls would need file contents.
- The access mode and creation bits that `_open` passes to `f_open`.
- Hardware: port I/O other than the two cursor bytes, interrupt masking, `hlt`, mode registers, and loading the palettes into the DAC.
- Tty.Terminal.ReadRaw: the echo of a buffer without a NUL, which runs on into whatever memory follows, is not modelled.
- Tty.Terminal.Read: in raw mode, the same.
- Tty.Terminal.ReadCooked: a call whose keys run out stands for one that is still blocked; its partly edited line is described by `Tty.Terminal.EditLine` and carried on in `InputPath.dfy`.
- InputPath.EndToEnd: only cooked reads; raw reads between cooked ones are in `Tty.ChunkingConserves`. The layout is fixed over a trace, as it is set before interrupts are enabled.
- Cpio.Find: offsets are unbounded integers, so 32-bit pointer wrap-around is not modelled; a comparison that leaves the image is an explicit outcome.
- Vga13Draw.RectFill: integers are unbounded, so the sums `x + w` and `y + h` that overflow an `int` are not modelled.
- The debugging macros of `sys/queue.h` (traces, trashed links, checks that panic), which expand to nothing here, and its loops that allow removal.
- Backend selection in `console.c` and `stdin.c`: one-branch dispatch; the text console and the PS/2 keyboard are assumed.
