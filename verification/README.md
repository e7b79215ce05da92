# Verified model of a small x86 kernel's console, keyboard, PCI and AHCI code

The project models four connected parts of the kernel and proves what they keep over whole runs.

**Text console** (`kernel/print_utils.c`). `Console.dfy` is the code on its own state: 32 KB of text
memory as a byte array that is written in place, and a cursor in two byte offsets (the source's names are
swapped: the row offset is the position within a row). Each operation is proved against a function on
values, where a screen is a sequence of cells and a cell number (`Screen.dfy`, `NumberPrinting.dfy`,
`Format.dfy`). About those functions the project proves:
- the screen is, for every string, the last 25 rows of a sheet that never scrolls (`Canvas.dfy`), and
  after a clear it shows the last 25 rows of the 80-column layout of everything printed since;
- printable text followed by as many backspaces is blank space, through any number of scrolls;
- the decimal printers, which write their digits backwards and may scroll on the way, equal printing the
  numeral as a string if and only if the numeral fits in front of the screen's end; otherwise the cursor
  is the same and exactly the last min(k, n - k) of n digits are lost, where k fit. The code writes them
  beyond the screen, before it scrolls;
- printf leaves the cursor where print_str of the rendered text does, and for every format the cells in
  which the pictures differ are computed from the cursor and the format (`LostCells.dfy`). From the first
  number that does not fit on, and without backspaces, the pictures are equal if and only if every number
  fits or is followed by 25 scrolls.

**Keyboard** (`kernel/keyboard.c`). A decoder whose state has a closed form over any scan-code history, and
a ring of 128 keys. In every interleaving of interrupts and pops, what was delivered and what waits is
what was accepted, in order; nothing is lost if and only if no key came while the ring was full.

**Main loop** (`kernel/kernel.c`). The consumer of the ring, its status text and its saved cursor, and the
interrupt stub, which prints every code in 16 cells at the cursor. `Kernel.Loop` is the loop itself, for any
number of turns from its entry, on the real console and keyboard, with codes that come in at any point between
two of its calls. The status is printed from a cell of its own, wherever the cursor was, and ends where its whole
text leads as one string; the row of the keyboard flags shows them and nothing else (`StatusText.dfy`). Typing starts where the first status ends. From there the typist's cursor goes where the
handled keys take it, and the codes that are printed in the typing windows: from the call that places the typing
cursor to the one that reads it off again. No status text and no code at another point moves it. If no code
comes in during the windows, the cursor is where the keys alone lead, and that is where the decoded scan codes
lead if no key came to a full ring. A code in a window does move the typist: those that come in after the last
key leave him in place if and only if he is in the last row and there are a multiple of five.

**PCI and AHCI** (`kernel/pci.c`, `kernel/kernel.c`). Packed configuration addresses (section 3.2.2.3.2 of
PCI Local Bus Specification 3.0), 16-bit accesses, and the controller search, whose slot numbers run past
the 5-bit device field: it misses nothing and reports the controller with the lowest bus, device and
function, under coordinates that are that controller's own if and only if its bus number is a multiple of 8.
Then the memory layout of all 32 AHCI ports, the stop and start of a port's engine, the read command, and
the conversation with the device (sections 3.3, 4.2.2, 4.2.3 and 10.3.1 of AHCI 1.3.1). A device is any
function that changes the registers before each access of the host; a log of accesses, with the port's
memory at each store that makes the device look at it, is what the safety claims are about. Where the source
waits without a bound, the model takes a number of rounds as a parameter and says in its result that the
wait was not over; since that number is arbitrary, the claims about the log hold at every moment of an
endless wait. Whatever list of requests follows a port_rebase, every command that is issued is the one that
its request means, down to the bytes that the controller finds. The driver gives up before it issues a command in
two cases only: all 16 slots taken, or a million busy loads in a row.

The operations and the functions that specify them share named constants. The lemmas called "in numbers" state the
same facts once more with plain numbers, so that they can be read against the source and against the standards.

The comment above printf lists a precision for floats and a width for hexadecimal numbers; the code takes
neither, and the model follows the code. The source's comments draw the command header with its bit fields
in another order than the structure declares them; the model follows the structure. A count of 0 sectors
passes through the code: it asks for 2^22 bytes, and the theorem on the meaning of a command says for which
counts the bytes are right.

Numbers are integers with explicit remainders where the source wraps or truncates, or bit vectors where
it works on bits. Shifts and masks that pick the digits of a number are division and remainder.

## Model

| member | source | states |
|---|---|---|
| Console.Console.ClearScreen | kernel/print_utils.c:13-20 | the 2000 visible cells are blank in the current style, the cursor is at the top left, memory beyond the screen is untouched |
| Console.Console.ScrollUp | kernel/print_utils.c:30-42 | the in-place forward copy moves every row up by one, blanks the last row, keeps memory beyond the screen |
| Console.Console.PrintNewline | kernel/print_utils.c:43-47 | the byte offsets implement the newline of the cell model, scrolling on the last row |
| Console.Console.PrintChr | kernel/print_utils.c:49-67 | newline, backspace or a cell written in place with wrap and scroll |
| Console.Console.PrintBackspace | kernel/print_utils.c:105-116 | blanks the cell before the cursor, across row starts, nothing at the top left |
| Console.Console.PrintStr | kernel/print_utils.c:118-122 | the loop prints the whole C string in order |
| Console.Console.MoveCursorUp | kernel/print_utils.c:88-95 | up one row around the top edge, memory untouched |
| Console.Console.MoveCursorDown | kernel/print_utils.c:97-103 | down one row around the bottom edge, memory untouched |
| Console.Console.MoveCursorLeft | kernel/print_utils.c:79-86 | left one cell around both edges, memory untouched |
| Console.Console.MoveCursorRight | kernel/print_utils.c:69-77 | right one cell around both edges, memory untouched |
| Console.Console.MoveCursorTo | kernel/print_utils.c:356-359 | any coordinates are accepted; the cursor is valid if and only if they are on the screen |
| Console.Console.GetCursorCoord | kernel/print_utils.c:361-364 | the coordinates are on the screen and determine the cursor cell |
| Console.Console.ClearRow | kernel/print_utils.c:366-373 | the 80 cells of the row after the given one become blanks in the current style, every other cell of text memory stays, the cursor goes to the start of its own row |
| Console.Console.WriteDigits | kernel/print_utils.c:130-148 | the backward digit loop with its mid-number scroll performs one digit round per digit, and no offset ever underflows |
| Console.LastDigitOffset | kernel/print_utils.c:126-131 | the counting loop gives two bytes for every digit but the last, for 0 too |
| Console.Console.PrintUnum | kernel/print_utils.c:124-176 | both unsigned printers put the numeral on the screen in the closed form of NumberPrinting.PutNumber |
| Console.Console.PrintInum | kernel/print_utils.c:339-354 | a minus sign and the magnitude; the least integer, whose negation C leaves undefined, is excluded |
| Console.Console.PrintHex | kernel/print_utils.c:249-315 | the four hexadecimal loops print the prefix and the fixed-width digits as a string |
| Console.Console.PrintBinByte | kernel/print_utils.c:317-328 | the mask loop prints the prefix and the eight digits as a string |
| Console.Console.PrintBool | kernel/print_utils.c:332-337 | prints the word |
| Console.Console.Printf | kernel/print_utils.c:392-447 | the scanning loop shows, item by item, what the format and its arguments parse to; what each conversion letter prints is in the four Format rows on conversions |
| Canvas.WindowStep | kernel/print_utils.c:30-67 | one character does to the screen what it does to the never-scrolling sheet |
| Canvas.ScreenIsWindow | kernel/print_utils.c:30-122 | for every string, with any scrolls and backspaces, the screen is the last 25 rows of the sheet |
| Canvas.ScreenShowsTranscript | kernel/print_utils.c:13-122 | from a clear, any backspace-free text shows exactly the last 25 rows of its unbounded layout, cursor at its end |
| Canvas.BackspacesErase | kernel/print_utils.c:30-116 | printable text and as many backspaces leave the picture of as many spaces; the cursor returns to max(0, start - 80 scrolls) |
| Screen.MoveIsModular | kernel/print_utils.c:69-103 | the edge tests of each move are arithmetic modulo 2000 |
| Screen.MovesAreModular | kernel/print_utils.c:69-103 | any run of moves ends at the net displacement modulo 2000 |
| Screen.MovesCommute | kernel/print_utils.c:69-103 | the order of moves does not matter |
| Screen.MovesReturn | kernel/print_utils.c:69-103 | a run of moves returns to its start if and only if its net displacement is a multiple of 2000 |
| Screen.PrintStrPos | kernel/print_utils.c:43-67 | the cursor after a string depends on the cursor before and the string alone; style and off-screen memory stay |
| Screen.CharactersInNumbers | kernel/print_utils.c:43-116 | in numbers alone: where newline, backspace (code 8) and any other character take the cursor, and which cell they write, if that does not scroll |
| Screen.ScrollInNumbers | kernel/print_utils.c:30-67 | in numbers alone: a newline on the last row or a character in the last cell moves each cell up by 80 and blanks the last row |
| Screen.ClearedInNumbers | kernel/print_utils.c:13-20 | in numbers alone: 2000 cells become character 32 in the current style, the cursor is at 0 |
| Screen.ClearedRowInNumbers | kernel/print_utils.c:366-373 | in numbers alone: 80 cells of one row become character 32 in the current style, all others stay, and so does the cursor's row |
| Screen.MovesInNumbers | kernel/print_utils.c:69-103 | up, down, left and right add 1920, 80, 1999 and 1 modulo 2000 |
| NumberPrinting.RoundsPutNumber | kernel/print_utils.c:132-148 | the digit rounds, run to the end, equal the closed form with one scroll at most |
| NumberPrinting.FittingNumber | kernel/print_utils.c:124-176 | digits that fit in front of the screen's end, the last cell included, are printed as by print_str |
| NumberPrinting.StraddlingNumber | kernel/print_utils.c:132-148 | a numeral over the screen's end: same cursor, and exactly the lost digits' cells are blank |
| NumberPrinting.NumberAgreesIffItFits | kernel/print_utils.c:124-176 | for every u64 and cursor, the picture is print_str's if and only if the digits fit; the cursor always is |
| NumberPrinting.TenAtTheLastCell | kernel/print_utils.c:132-148 | the number 10 at the last cell: its 1 is shown, its 0 is missing |
| NumberPrinting.NumberScrollsOnce | kernel/print_utils.c:124-176 | the cursor of a decimal with no fit hypothesis: one row up if and only if the end is reached |
| Numerals.DecimalReadsBack | kernel/print_utils.c:132-137 | decimal digits read back to the number, leading zero only for 0 |
| Numerals.DigitsReadBack | kernel/print_utils.c:249-328 | fixed-width digits are valid and read back to every number that fits |
| Numerals.PrintedNumbersReadBack | kernel/print_utils.c:249-328 | what the five fixed-width printers write reads back in the base of its prefix |
| Numerals.DigitsInNumbers | kernel/print_utils.c:132-328 | a digit is the character 48 + its value; hexadecimal digits above nine are small letters |
| Format.SignedReadsBack | kernel/print_utils.c:339-354 | the text of a signed integer reads back to its two's-complement value |
| Format.DecimalConversions | kernel/print_utils.c:411-430 | for a format of one conversion: %u prints a numeral that reads back to the word, %n to its two's-complement value, %a to the 64-bit word |
| Format.FixedWidthConversions | kernel/print_utils.c:408-436 | %x, %X and %b print 0x and 8 digits, 0x and 4, 0b and 8, which read back to the word, its low half, its low byte |
| Format.TextConversions | kernel/print_utils.c:402-433 | %c prints the low byte as a character, %s its string, %B the word true if and only if the low byte is not 0, else false |
| Format.FloatConversions | kernel/print_utils.c:417-424 | %f and %d print a numeral that reads back to the given whole part, a point, and the given fraction digits |
| Format.ConversionLetters | kernel/print_utils.c:397-444 | the eleven letters after which an argument is taken, and no others |
| Format.PrintfIsPrintStr | kernel/print_utils.c:392-447 | for every format and matching arguments, the cursor is print_str's of the rendered text, and so is all memory if no decimal straddles the end |
| Format.PrintfShowsTranscript | kernel/print_utils.c:13-447 | formatted output after a clear shows the last 25 rows of the layout of all rendered text |
| LostCells.PrintfDiffers | kernel/print_utils.c:392-447 | for every format and cursor, printf's picture and print_str's differ exactly in the computed cells: lost digits that were not overwritten, erased or scrolled away |
| LostCells.LostDigitsDecide | kernel/print_utils.c:392-447 | after anything that fits, and without backspaces from then on, the pictures are equal if and only if every number fits or is followed by 25 scrolls |
| LostCells.LastNumberDecides | kernel/print_utils.c:392-447 | when all before it fits, a final %u, %n, %a, %f or %d makes the picture print_str's if and only if its number fits, or a fraction of 25 scrolls follows it |
| Format.LiteralFormat | kernel/print_utils.c:397-444 | a format takes no argument if and only if each conversion character stands after an even number of '%', and then it is printed as it is |
| Keyboard.KeyQueue.Push | kernel/keyboard.c:38-42 | appends to the ring, or drops the key when 128 wait |
| Keyboard.KeyQueue.Pop | kernel/keyboard.c:44-52 | removes and returns the oldest key, NUL if none |
| Keyboard.KeyQueue.Clear | kernel/keyboard.c:25-28 | empties the ring |
| Keyboard.Keyboard.Init | kernel/keyboard.c:55-67 | flags off, ring empty and zeroed |
| Keyboard.Keyboard.Decode | kernel/keyboard.c:70-149 | the switch with its fall-through yields the key and flags of the closed decoder |
| Keyboard.Keyboard.Interrupt | kernel/keyboard.c:69-158 | one interrupt is one step of the run model |
| Keyboard.Keyboard.PopKey | kernel/keyboard.c:44-52 | one pop is one step of the run model |
| ScanCodes.AfterClosedForm | kernel/keyboard.c:72-105 | after any history, with the codes as numbers: shift and ctrl held, parity of the lock keys, extended mode iff the last code is the prefix |
| ScanCodes.ArrowsNeedPrefix | kernel/keyboard.c:107-129 | arrow keys arise if and only if an arrow code directly follows the prefix |
| ScanCodes.LettersFollowShiftOrCaps | kernel/keyboard.c:131-138 | a letter is upper case if and only if shift is held or caps lock is on |
| ScanCodes.CaseOfKeys | kernel/keyboard.c:131-138 | no key of the wrong case is ever produced |
| ScanCodes.TableFacts | kernel/keyboard.c:6-24 | the tables hold no arrow keys and no capitals, and the same letters |
| ScanCodes.KeyRows | kernel/keyboard.c:6-24 | the four rows of keys spelled out, without and with shift |
| ScanCodes.OtherKeys | kernel/keyboard.c:6-24 | the codes outside the four rows: backspace, tab, newline, star, blank, and no key for all the rest |
| ScanCodes.KeysInNumbers | kernel/keyboard.c:70-149 | the key of every code in every state of the decoder: prefixed arrows are 7, 6, 5 and 4, modifiers and the prefix none, the others by the rows, small letters made upper case by shift or caps lock |
| KeyRuns.PopsDoNotDisturbDecoding | kernel/keyboard.c:69-158 | in every interleaving the decoder and the offered keys depend on the scan codes alone |
| KeyRuns.RingHoldsBacklog | kernel/keyboard.c:30-52 | the ring holds as many keys as the mere count says, at most 128, never NUL |
| KeyRuns.KeysAreConserved | kernel/keyboard.c:25-52 | delivered keys and ring are, in order, the keys that arrived with fewer than 128 waiting |
| KeyRuns.NothingLostIffNeverFull | kernel/keyboard.c:38-158 | every decoded key is delivered or waiting, once and in order, if and only if none came to a full ring |
| KeyRuns.OnePressTooMany | kernel/keyboard.c:38-42 | 129 presses without a pop lose the last key |
| KeyRuns.NulMeansEmpty | kernel/keyboard.c:44-52 | a pop returns NUL if and only if nothing waits |
| MainLoop.Kernel.KeyboardInterrupt | kernel/kernel.c:90-97 | every code is printed at the cursor; 0xEE, 0xFA and 0xFE change nothing else, every other code is counted and is one step of the decoder |
| MainLoop.Kernel.ArrowPressed | kernel/kernel.c:90-97 | the prefix and an arrow code, one interrupt after the other, on a ring with room, end with 7, 6, 5 or 4 as its last key |
| Wire.HandedInNumbers | kernel/kernel.c:93 | of one code: 0xEE, 0xFA and 0xFE are kept back, any other is handed on; of more codes: in the order in which they come in |
| Wire.HandedCounts | kernel/kernel.c:93 | over any codes: none of the three reaches the decoder, every other as often as it came in, and all as they came in if and only if none of the three was among them |
| MainLoop.Kernel.HandleKey | kernel/kernel.c:537-552 | arrows move the cursor, other keys are printed |
| MainLoop.Kernel.Drain | kernel/kernel.c:533-555 | ends with an empty ring even if more codes come in before any test, before a key is taken out or before it is handled; the screen is that of handling exactly the keys it delivers, with those codes printed in between |
| MainLoop.Kernel.ClearNewRow | kernel/kernel.c:514-517 | after the newline, clear_row(y - 1) clears the row y that the cursor was in when it was read off, never the top row, whatever codes come in before and after that |
| MainLoop.Kernel.Turn | kernel/kernel.c:496-563 | one turn, with codes at any point between its calls: the status is printed from its own cell; the typist's cell is where the keys and the codes of the typing window lead from the saved cell (in the first turn: from the cell where the status cell and the whole text of the status lead), and the hardware cursor is there |
| MainLoop.Kernel.PrintReport | kernel/kernel.c:502-512 | the report is printed from the cell (cx, cy) on: the cursor is where print_str of its whole text, printed codes included, leads from there |
| StatusText.StatusIgnoresCursor | kernel/kernel.c:502-532 | screens that differ in the cursor alone are equal after the status, if no code comes in before it: it is printed at its own cell |
| StatusText.ReportIsText | kernel/kernel.c:502-512 | the cursor after the report depends on the status cell and its text alone; so does the whole picture if its numbers fit |
| StatusText.StatusPos | kernel/kernel.c:502-532 | the cursor after the status is that of one string printed from the status cell: report, newline, flags, newline, with the text of each printed code in its place |
| StatusText.FlagsRow | kernel/kernel.c:514-532 | without codes after the report and for flags that stay within a row: that row shows the flags in style 7 and blanks, whatever was there before, and in the last row both move up by a row |
| StatusText.TurnIgnoresCursor | kernel/kernel.c:496-563 | a later turn in which no code comes before its status does not depend on where the cursor was |
| StatusText.IdleTurnShowsStatus | kernel/kernel.c:496-563 | after a turn without keys or codes in the typing part, the screen is the one the status left |
| MainLoop.Kernel.Loop | kernel/kernel.c:489-564 | any number of turns from the loop's entry: one turn for each input, the keys are those delivered, the codes all that came in, the screen is that of the session, and the typist's cell follows the keys as said above |
| Typing.ScreenHandlesDelivered | kernel/kernel.c:533-555 | handling every key when popped is handling the delivered keys |
| Typing.BatchingIsInvisible | kernel/kernel.c:533-555 | wherever the drains fall, handling the keys ends with the screen of handling each accepted key on arrival |
| Typing.ArrowCodesMove | kernel/kernel.c:537-552 | from scan codes to the cursor: prefixed arrow codes move by one modulo the screen, no other code does |
| Typing.HandledKeysInNumbers | kernel/kernel.c:537-552 | the keys 7, 6, 5 and 4 move by 80 cells up and down and one left and right, modulo 2000; every key outside 4 to 7 is printed |
| Session.MarkIsText | kernel/kernel.c:92 | what printf makes of the stub's format and a code is the text of its eight hexadecimal digits in brackets |
| Session.MarkMoves | kernel/kernel.c:92 | a printed code moves the cursor by 16 cells, a row less if that scrolls the screen |
| Session.CodesMoveTypist | kernel/kernel.c:532-556 | codes after the last key of a typing window leave the typist in place if and only if there are none, or he is in the last row and there are a multiple of five |
| Session.MarksReturn | kernel/kernel.c:92 | printed codes bring the cursor back to its cell under exactly that condition |
| Session.ReleaseCodeMoves | kernel/kernel.c:532-556 | a release code while nobody types moves the typist by 16 cells |
| Session.CodesBeforeKey | kernel/kernel.c:533-552 | codes that come in before the test, the pop and the handling of a key are all printed before it is handled |
| Session.ClearedRowIsOnScreen | kernel/kernel.c:514-517 | after a newline and any codes the cursor is in one of rows 1 to 24, and clear_row hits the cursor's own row if no code comes in between |
| Session.TypingIgnoresStatus | kernel/kernel.c:496-563 | over any turns, status text and codes, the typist's cursor is where the keys and the codes of the typing windows take it from the end of the first status |
| Session.TypistFollowsScanCodes | kernel/kernel.c:496-563 | and where the decoded scan codes take it, if the drains took all keys of a run out of the ring, no code came in during the windows and the ring was never full |
| PciConfig.Ports.ReadU16 | kernel/pci.c:35-49 | the shifted and masked data is the half of the register that the offset picks |
| PciConfig.Ports.WriteU16 | kernel/pci.c:51-68 | the read-modify-write replaces that half |
| PciConfig.Ports.ReadU32 | kernel/pci.c:70-80 | reads the register at the packed address |
| PciConfig.Ports.WriteU32 | kernel/pci.c:82-91 | writes it |
| PciConfig.AddressIsInjective | kernel/pci.c:35-40 | over 5-bit devices and 3-bit functions, equal addresses mean equal places |
| PciConfig.AddressFields | kernel/pci.c:35-40 | the fields of an address: 0x80 in the top byte, then bus, device and function, and the register's offset with its two low bits clear |
| PciConfig.SlotSpillsIntoBus | kernel/pci.c:35-40 | a slot of 32 or more addresses device slot & 31 on bus \| slot >> 5 |
| PciConfig.WriteThenRead | kernel/pci.c:35-68 | a 16-bit write is read back if and only if there is a register or all ones were written; the other half stays |
| PciConfig.WriteLeavesOthers | kernel/pci.c:51-68 | every register at another place stays |
| PciScan.Scan | kernel/kernel.c:390-411 | the triple loop returns the first matching triple, or none matches |
| PciScan.ScanFindsIffPresent | kernel/kernel.c:393-411 | a controller is reported if and only if some bus, device < 32 and function < 8 holds one |
| PciScan.TruePlace | kernel/pci.c:93-95 | a triple matches if and only if there is a controller at its true place |
| PciScan.ControllerInNumbers | kernel/kernel.c:397-404 | a controller is: the low half of register 0 of function 0 is not 0xFFFF, and the upper half of the function's register 8 is 0x0106 |
| PciScan.ReportedPlace | kernel/kernel.c:397-406 | the report is the first triple for the controller with the lowest bus, device and function, and that controller's own place if and only if its bus is a multiple of 8 |
| PciScan.ControllerOnBusOne | kernel/kernel.c:397-406 | a controller alone at device 0 of bus 1 is reported as slot 32 of bus 0 |
| AhciLayout.LayoutTiles | kernel/kernel.c:189-210 | the structures of all 32 ports tile the area: none overlap, no byte is unused |
| AhciLayout.LayoutIsAligned | kernel/kernel.c:193-210 | the 1 KB, 256-byte and 128-byte alignments hold, and addresses fit 32 bits |
| AhciLayout.LayoutInNumbers | kernel/kernel.c:186-210 | the lists at 0x400000, the FIS areas at 0x408000, the tables at 0x40A000, and their strides |
| AhciLayout.FieldsInNumbers | kernel/kernel.c:205-213 | fields are read with the lowest byte first |
| AhciLayout.RebasedMeans | kernel/kernel.c:205-213 | every header reads prdtl 8 and its own table's address; tables and FIS areas are zero |
| AhciLayout.RebaseIsLocal | kernel/kernel.c:186-216 | rebasing sets up the port whatever was there and changes no other port's byte |
| AhciLayout.AllPortsRebased | kernel/kernel.c:186-216 | ports rebased in any order and number all end set up |
| AhciRebase.Memset | kernel/kernel.c:182-184 | zeroes exactly the given range |
| AhciRebase.StopCmd | kernel/kernel.c:167-180 | ST and FRE are cleared by a load and a store each; then either FR and CR were seen clear one after the other, and all four bits are clear, or each of the observed rounds saw one of them set; for a device that settles in time it is the former |
| AhciStop.WaitingMeans | kernel/kernel.c:167-180 | a port that is still waited for was told to clear ST and FRE, and was seen running once a round |
| AhciStop.RunningInNumbers | kernel/kernel.c:173-179 | running is: a load of CMD with a bit of 0xC000 set |
| AhciPort.CmdBits | kernel/kernel.c:152-180 | ST, FRE, FR and CR are the bits 0x1, 0x10, 0x4000 and 0x8000 |
| AhciRebase.SafeInNumbers | kernel/kernel.c:156-216 | what safety demands of each store, with the bits of CMD as numbers |
| AhciRebase.StartCmd | kernel/kernel.c:156-164 | enables FRE then ST, with CR clear and the port's memory built at each of the two stores, and does not wait for a stopped engine |
| AhciRebase.BuildSlots | kernel/kernel.c:205-213 | the loop that interleaves headers and zeroing leaves the stated memory |
| AhciRebase.PortRebase | kernel/kernel.c:186-216 | every access is safe: address registers change only while stopped, no command is issued, and at the store that restarts the engine the port's memory holds all structures; stuck means asked to stop, seen running in every round, and nothing else touched; a device that settles in time is restarted |
| AhciCommand.RebasedIsConfigured | kernel/kernel.c:203-213 | port_rebase establishes what read_bytes needs: linked headers with no flag, port multiplier number or upper table address |
| AhciCommand.WriteCommand | kernel/pci.c:152-189 | only three bytes of the slot's header and 144 bytes of its own table change; after that the bytes in memory are a DMA read of the request: 5 FIS words, no write flag, one descriptor at the buffer, FIS type 0x27, the command bit, opcode 0x25, device 0x40, and features and control 0 |
| AhciCommand.StillConfigured | kernel/pci.c:152-189 | a command keeps all headers linked and plain, so reads can follow each other |
| AhciCommand.IssuedDecodes | kernel/pci.c:152-189 | a controller decodes header and table, with every field it acts on, to the meant command if and only if the header was plain before |
| AhciCommand.CommandMeansRequest | kernel/pci.c:168-189 | a READ DMA EXT (0x25) in LBA mode; address, sectors and byte count are the request's if and only if starth < 2^16 and 1 <= count <= 8192 |
| AhciCommand.MeantInBytes | kernel/pci.c:152-189 | a controller that decodes the meant command has that DMA read before it, byte by byte |
| AhciCommand.ZeroSectors | kernel/pci.c:168-189 | a count of 0 asks for 2^22 bytes |
| AhciRead.FindCmdslot | kernel/pci.c:97-104 | the shifting loop returns the lowest slot of 0 to 15 that is clear in both maps |
| AhciRead.Spin | kernel/pci.c:194-202 | the busy loop is left ready only if one of its first million loads was idle |
| AhciRead.ReadBytes | kernel/pci.c:106-227 | for every device: the conversation follows the protocol to an end that its result tells, and at the store that issues a command the port's memory holds the meant one |
| AhciUse.RebaseAndRead | kernel/kernel.c:443-475 | port_rebase and then any requests: no command while rebasing, then a whole conversation for each request, and the port stays configured |
| AhciUse.EveryIssueIsMeant | kernel/kernel.c:443-475 | every store that issues a command shows the meant command of one of the requests in the memory of that moment, and that is, in literal bytes at literal addresses, a DMA read of its sectors to its buffer |
| AhciRead.IssuesAtMostOnce | kernel/pci.c:146-227 | an admitted conversation issues one command at most |
| AhciRead.IssueIsPrepared | kernel/pci.c:146-204 | an issued slot was the lowest free one when sampled, after FRE and ST, after an idle task file within a million loads |
| AhciRead.ResultMeans | kernel/pci.c:206-227 | true only after the issued bit was seen clear; false after an issue only on a task file error |
| AhciRead.AcknowledgedFirst | kernel/pci.c:146 | a conversation begins with a store of 0xFFFF to the interrupt status |
| AhciPort.AcknowledgeKeepsErrors | kernel/pci.c:146 | that store clears the low half; a task file error, bit 30, stays as it was |
| AhciRead.IssueInNumbers | kernel/pci.c:97-204 | what precedes an issue, with the source's numbers: 16 slots, bits 0x10 and 0x1 of CMD, the task file mask 0x88, a million loads |
| AhciRead.ErrorInNumbers | kernel/pci.c:213-218 | false after an issue means that a load of the interrupt status had bit 30 set |
| AhciRead.GivesUp | kernel/pci.c:97-207 | false without an issue means that all 16 slots were taken in the two maps, and that they were always ends so; or else that a million loads in a row saw the task file busy |

## Left out

- Floating point: the whole part and the fraction digits that print_f32 and print_f64 compute are parameters of %f and %d; print_f32_fixed, pow and char_to_num are not modelled.
- Console.Console.Printf: the digits that a float prints are given with its argument (see above).
- Console.Console.PrintInum: excludes the least 32-bit integer, whose negation is undefined in C.
- Console.Console.PrintStr: printing requires a cursor on the screen. The source has no such test; MainLoop.Kernel.Turn shows that its main loop never leaves the screen.
- Console.Console.ClearRow: requires the row to lie in text memory; the source would write past it for rows above 203.
- Keyboard.KeyQueue.Pop: atomic. The source does not mask interrupts, so an interrupt between its two updates is not covered.
- MainLoop.Kernel.KeyboardInterrupt: atomic, between two calls of the main loop. An interrupt in the middle of a call, such as a printing one, is not covered.
- Typing.BatchingIsInvisible: about the keys alone, without the codes that the stub prints among them; Session.TypingIgnoresStatus says what those do.
- LostCells.PrintfDiffers: compares the screens. Beyond the screen a straddling number also writes its last digits, which print_str does not.
- MainLoop.Kernel.Turn: the status text is any list of printf calls with matching arguments, not the source's own list.
- PciConfig.WriteThenRead: registers are memory-like; read-only and write-one-to-clear bits of real devices are not modelled.
- AhciRebase.PortRebase: assumes a device that leaves the address registers and the enable bits to the host and starts nothing that is not enabled. The stop loop need not end; the model shows that it does for a device that settles.
- AhciUse.RebaseAndRead: the HBA reset between port_rebase and read_bytes is not a step of its own; as part of the device it is taken to leave the list address alone.
- AhciRead.ReadBytes: assumes that the device leaves the command list address register alone, and does not cover DMA into the command structures, the transferred data, or the printed messages. Of the interrupt status only the low 16 bits are cleared (AhciPort.AcknowledgeKeepsErrors), so the error that ends a conversation may be an older one.
- Exception handlers, interrupt tables, local and I/O APIC, timers, FPU and SSE setup, BAR size probe, HBA reset and boot code: hardware writes without an invariant of their own.
