# Verified models of MacQuadra's algorithms

MacQuadra is a tree of Macintosh emulators (Basilisk II, SheepShaver) and a
machine monitor (cxmon). This project models the parts of it that are
algorithms rather than glue, each in the form the program has them: methods
over arrays and classes with mutable fields, proved against functions, about
which the properties below are then proved.

| file | what it models |
|---|---|
| `Bytes.dfy` | bytes, 32-bit words, options and lists |
| `Lzss.dfy` | the decoder of compressed ROM images and its ring dictionary, against sliding-window LZ77 |
| `PackBits.dfy`, `PackBitsLimits.dfy`, `Pict.dfy` | the PackBits row encoder with its raw fallback, the rows its 16-bit cursor loses, and the PICT writer around it, against a decoder and a reader |
| `Expressions.dfy`, `WordBits.dfy`, `Scanner.dfy`, `Spellings.dfy`, `Monitor.dfy` | the expressions of cxmon: trees and their values, printing and the grammar; the operators on bits, the precedences; the tokens of a line and their spellings; the scanner and parser over their mutable state |
| `TimerTasks.dfy`, `TimerThreads.dfy`, `SheepTimer.dfy`, `TimerRuns.dfy`, `BasiliskTimer.dfy`, `TimerDrift.dfy` | the Time Manager: deadlines, and why extended tasks do not drift; the timer thread against the emulator thread; the linked-list and the 64-slot implementations |
| `ScsiTable.dfy`, `Scsi.dfy`, `ScsiManager.dfy` | the SCSI Manager: the coalesced scatter/gather table, self-modifying transfer programs, the phases of a transaction |
| `Kernels.dfy`, `QuickDraw.dfy`, `Blit.dfy`, `Pixels.dfy` | inversion, filling and copying of rectangles in a flat byte memory, and which pixels of a bitmap they change |
| `RomTrap.dfy` | the search in the delta-compressed trap table of a ROM, with an encoder as its inverse |
| `ExtFs.dfy` | the catalogue of the external file system, a list that is also a tree |
| `EtherTypes.dfy`, `DlpiStream.dfy`, `EtherReceive.dfy`, `EtherRequests.dfy`, `EtherTransmit.dfy`, `EtherDelivery.dfy` | the DLPI Ethernet module: stream bindings, distribution of received packets, building and sending of frames, and the way from one to the other |

Some properties hold only under a condition, which is then proved to be exact,
or shown to fail by an example:

- `CompressUsingRLE` counts its output in 16 bits. A row reads back from a buffer
  of the size it asks for if and only if the cursor does not wrap; all rows of a
  length do if and only if that size is below 65536, that is up to 65021 bytes
  (`PackBitsLimits.RecoveredExactly`, `PackBitsLimits.LengthsExactly`).
- For rows of up to 250 bytes `CompressUsingRLE` stores the length of the packets
  in one byte. In a buffer of more than 256 bytes the compressed form of a row of
  191 to 250 bytes can be longer than that byte can say; with at most 190 bytes, or
  a buffer of the queried size, it never is (`PackBitsLimits.CountExactly`).
- IPX data reaches a receiver outside raw mode as it was sent if and only if its
  second byte is 0xff; otherwise more of it is hidden than the header
  (`EtherDelivery.Arrives`).
- Merging two transfers of the SCSI Manager adds their lengths in 32 bits. The
  table stands for the transfers if and only if no such sum overflows, that is if
  no run of adjoining transfers is 2^32 bytes long (`ScsiTable.FlattenCoalesced`,
  `ScsiTable.OverflowedExactly`, `ScsiTable.OverflowExample`).
- `NQD_bitblt` chooses its direction by the sign of the source stride. The copy
  has snapshot semantics if and only if no source row still to be read lies
  under a row already written (`Blit.BlitExactly`); a scroll down by one row with
  positive strides fails it (`Blit.ScrollSmears`).
- A fill sets every pixel to the pen at 32 bits; at 16 bits if and only if the
  halves of the pen are equal, or the rows are one pixel wide and the host is
  big-endian; at 8 bits if and only if the host is big-endian or the outer bytes
  of the pen are equal (`QuickDraw.FillSetsPen`). On a little-endian host an
  8-bit fill with pen 7 leaves 0 (`QuickDraw.PenSeven`).
- Find-or-create keeps names unique if and only if guest names survive the
  conversion to the host and back (`ExtFs.UniqueExactly`).
- `DLPI_bind` tests all 32 bits of the SAP and keeps 16, so a group SAP can be
  bound after all (`DlpiStreams.BoundToGroupSap`); a subsequent bind that cannot
  be acknowledged stays in force (`DlpiStreams.RefusedChangesNothing`); removing
  a group SAP drops a SNAP binding (`DlpiStreams.GroupRoundTrip`); and a stream
  that takes all 802.2 packets never stops (`DlpiStreams.AcceptAllStays`).

Where code and documentation differ the code is followed: the cxmon manual
(`cxmon/README:72`) speaks of 32-bit numbers, the code computes in `uintptr`,
taken here as 64 bits wide.

What the model takes as parameters: the clock, the memory contents a program
happens to find, whether an allocation succeeds, what SCSI hosts and task
routines answer, the conversions between character sets, and the byte order of
the host.

## Model

| member | source | states |
|---|---|---|
| `Lzss.CopyBackRepeats` | SheepShaver/src/rom_patches.cpp:111-117 | A copy leaves the history alone and repeats what lies `distance` bytes back, also where it is longer than its distance |
| `Lzss.RingPush` | SheepShaver/src/rom_patches.cpp:97-100 | Storing a byte keeps the ring equal to the last 4096 bytes of output, byte k at slot (0xfee + k) mod 4096 |
| `Lzss.RingRead` | SheepShaver/src/rom_patches.cpp:109-117 | Ring slot idx holds the byte a fixed distance back, and the distance stays the same from one byte of a copy to the next |
| `Lzss.ParseReaches` | SheepShaver/src/rom_patches.cpp:82-119 | No input can make a copy start before the history |
| `Lzss.ParseOne` | SheepShaver/src/rom_patches.cpp:91-110 | The serialised form of a token (a byte, or 12 bits of ring index and 4 bits of length - 3) reads back as that token |
| `Lzss.ParseSerialise` | SheepShaver/src/rom_patches.cpp:84-119 | A serialised token list reads back as the list, from any position within a group of eight, flags least significant bit first |
| `Lzss.DecodesToExpansion` | SheepShaver/src/rom_patches.cpp:80-120 | Decoding the file of any encodable token list whose copies stay within the output gives exactly its sliding-window LZ77 expansion, whatever the dictionary held |
| `Lzss.OutputIsExpansion` | SheepShaver/src/rom_patches.cpp:80-120 | What the decoder leaves in its output for such a file is the expansion |
| `Lzss.CopyToken` | SheepShaver/src/rom_patches.cpp:83-117 | After k bytes of output a copy token lo, hi repeats byte j and the hi mod 16 + 2 bytes behind it, j being the last one before k with (0xfee + j) mod 4096 = lo + hi / 16 * 256 (negative in the old dictionary); decoding goes on behind the token |
| `Lzss.FirstByteRepeated` | SheepShaver/src/rom_patches.cpp:83-117 | The file 01 41 ee f0 decodes to 41 41 41 41 over any dictionary: slot 0xfee is the place of the first byte |
| `Lzss.WrittenBytes` | SheepShaver/src/rom_patches.cpp:88-110 | In a serialised group flag bit i, the lowest first, is set exactly if token i is a literal; a copy names the ring slot it starts from, counted from 0xfee, and its length less 3 |
| `Lzss.CopyFromRing` | SheepShaver/src/rom_patches.cpp:111-117 | The copy loop appends exactly the sliding-window copy and keeps the ring up to date |
| `Lzss.DecodeLzss` | SheepShaver/src/rom_patches.cpp:80-120 | For every input, also one cut short, the decoder writes exactly what the format means, as Lzss.CopyToken has it, and nothing behind it |
| `PackBits.UnpackBody` | BasiliskII/src/pict.c:82-139 | A PackBits decoder (section 9 of TIFF Revision 6.0) gets back the data of any list of packets of 1 to 128 bytes |
| `PackBits.UnpackBound` | BasiliskII/src/pict.c:82-121 | No PackBits data expands to more than 64 times its length |
| `PackBits.PackedData` | BasiliskII/src/pict.c:82-121 | The packets of the compressed form stand for the row, each byte once and in order |
| `PackBits.RawData` | BasiliskII/src/pict.c:123-142 | The fallback stands for the row too, at a cost of at most one byte per 128 |
| `PackBits.ChosenDecodes` | BasiliskII/src/pict.c:66-154 | Whichever form is written, a decoder gets back exactly the row |
| `PackBits.InRoom` | BasiliskII/src/pict.c:93-112 | Below 65536 the loop runs out of room if and only if the whole compressed form does not fit |
| `PackBits.MaxSizeSuffices` | BasiliskII/src/pict.c:68-80 | In a buffer of the queried size, itself below 65536, every row fits and the count never truncates: at most 252 in its single byte |
| `PackBitsLimits.NearOptimal` | BasiliskII/src/pict.c:82-121 | The compressed form is at most three times as long as any other PackBits form of the row |
| `PackBitsLimits.PackedThirds` | BasiliskII/src/pict.c:82-121 | and at most four thirds of the row and two bytes more |
| `PackBitsLimits.WrappedRowIsLost` | BasiliskII/src/pict.c:70-71 | Whenever the 16-bit cursor wraps, what is returned is too short for any decoder to yield the row, whatever bytes stand in the buffer |
| `PackBitsLimits.RecoveredExactly` | BasiliskII/src/pict.c:66-154 | A row reads back from a buffer of the queried size if and only if its packets do not wrap the cursor |
| `PackBitsLimits.TriplesWrap` | BasiliskII/src/pict.c:82-121 | For each length from 65022 on a row (x, y, y, x, y, y and so on) that wraps it |
| `PackBitsLimits.LengthsExactly` | BasiliskII/src/pict.c:66-154 | Every row of a length reads back from a buffer of the queried size if and only if that size is below 65536 |
| `PackBitsLimits.LongestSafeRow` | BasiliskII/src/pict.c:74-80 | That is, up to 65021 bytes |
| `PackBits.CountInFront` | BasiliskII/src/pict.c:68-151 | Rows of more than 250 bytes have the length of their packets in front in two bytes, the high one first; others its low byte alone |
| `PackBitsLimits.CountExactly` | BasiliskII/src/pict.c:93-151 | For rows of up to 250 bytes that single byte is the length, whatever the row, if and only if the rows have at most 190 bytes or the buffer at most 256; the queried size is at most 253 |
| `PackBits.CountMatches` | BasiliskII/src/pict.c:87-91 | The run loop finds the longest run up to 128 and leaves the cursor behind it |
| `PackBits.Spread` | BasiliskII/src/pict.c:104 | The literals end before the first pair of equal bytes behind the current one, or at 128, or a byte before the end of the row |
| `PackBits.CountLiterals` | BasiliskII/src/pict.c:101-107 | The literal loop counts exactly those |
| `PackBits.WritePacket` | BasiliskII/src/pict.c:83-120 | One turn writes the packet at the cursor and moves both cursors past it, or finds it does not fit and writes nothing |
| `PackBits.WritePacked` | BasiliskII/src/pict.c:82-121 | The loop runs out of room exactly when some packet does not fit; otherwise the packets stand behind the count |
| `PackBits.WriteRaw` | BasiliskII/src/pict.c:131-142 | The fallback stands behind the count; nothing is written past the buffer |
| `PackBits.CompressUsingRLE` | BasiliskII/src/pict.c:66-154 | The size query, n + (n + 126) / 127 and 1 or 2 more; or -1 exactly when neither form fits; or count and packets in the buffer, the count in two bytes above 250 bytes of row, the cursor taken modulo 65536; bytes past the buffer stay |
| `Pict.InterleavedPlanar` | BasiliskII/src/pict.c:238-243 | Splitting a row of pixels into planes loses nothing |
| `Pict.BoundSuffices` | BasiliskII/src/pict.c:182-191 | A buffer of the size from the query always holds the whole document, also where rows wrap |
| `Pict.ReadRow` | BasiliskII/src/pict.c:233-251 | A reader gets back one row, whichever form it was written in, and goes on behind it |
| `Pict.ReadsBack` | BasiliskII/src/pict.c:156-268 | A reader of version 2 pictures, which goes from opcode to opcode and checks frame, clip region and pixmap, gets back the image from a document: size, and every pixel of every row |
| `Pict.QueriedSizeSuffices` | BasiliskII/src/pict.c:156-268 | The conversion called with the size from its own query never returns -1, and what it writes reads back as the image if the row size is one the encoder can count |
| `Pict.SplitRow` | BasiliskII/src/pict.c:238-243 | The pixel loop puts alpha, red, green and blue into their planes |
| `Pict.CutRow` | BasiliskII/src/pict.c:233-243 | Row i of the image is bytes 4 w i to 4 w (i + 1) of the pixels |
| `Pict.CodeRow` | BasiliskII/src/pict.c:245-248 | A row never fails to compress into the buffer of the queried size |
| `Pict.CodesAreRowCodes` | BasiliskII/src/pict.c:233-251 | Unless rows wrap, the codes written are exactly those of the rows |
| `Pict.SizeInFront` | BasiliskII/src/pict.c:260-265 | The first two bytes of a document are its length, or 0xffff if that does not fit |
| `Pict.ConvertRGBAToPICT` | BasiliskII/src/pict.c:156-268 | The bound when asked; otherwise header, row codes and end with their length, or -1 exactly when they do not fit; bytes past the buffer stay |
| `Expressions.EvalFails` | cxmon/src/mon.cpp:680-802 | An expression has no value exactly when a name in it is undefined or a division or modulo in it has divisor zero |
| `Expressions.ParsePrint` | cxmon/src/mon.cpp:526-802 | At any precedence level the parser turns a tree, printed with only the parentheses it needs, into its value and goes on with what follows |
| `Expressions.PrintedExpression` | cxmon/src/mon.cpp:526-548 | A whole expression: its value, with the following token as lookahead; or failure exactly when it has no value |
| `Expressions.AcceptsExactly` | cxmon/src/mon.cpp:526-802 | The converse: the parser succeeds with value v and rest k if and only if the tokens are those of some tree worth v in front of k |
| `WordBits.BitwiseBits` | cxmon/src/mon.cpp:526-608 | Bit k of the values of `&`, `\|` and `^` is the conjunction, the disjunction and the difference of the bits k of the operands |
| `WordBits.ShiftBits` | cxmon/src/mon.cpp:610-637 | A shift by fewer than 64 bits moves each bit by as many places and zeros in behind |
| `WordBits.UnaryBits` | cxmon/src/mon.cpp:759-777 | `~` turns each bit round, `-` gives what adds up to zero modulo 2^64, `+` changes nothing |
| `WordBits.ArithmeticMeans` | cxmon/src/mon.cpp:645-722 | `+`, `-` and `*` are right modulo 2^64; quotient and remainder make up the dividend, and there are none exactly for divisor zero |
| `WordBits.Precedence` | cxmon/src/mon.cpp:526-722 | Of two operators the tighter one in the order `\|`, `^`, `&`, shifts, sums, products is applied first, and the left one of two equals |
| `Scanner.ScanSpelled` | cxmon/src/mon.cpp:319-518 | Every spelling of a token (plain or `$` hexadecimal, `_` decimal, quoted characters, names, operators) scans as that token |
| `Spellings.NumberSpellings` | cxmon/src/mon.cpp:398-442 | Hexadecimal digits, small or capital, with or without `$`, and decimal digits behind `_` spell the number they are |
| `Spellings.QuotedSpellings` | cxmon/src/mon.cpp:444-457 | A quoted constant is its characters as bytes of a number, the first one on top, modulo the word |
| `Spellings.WhiteSpace` | cxmon/src/mon.cpp:322-325 | The six white space characters of C |
| `Scanner.TokensOfText` | cxmon/src/mon.cpp:319-395 | A line of spelled tokens with any white space scans to those tokens and then to the rest of the line |
| `Scanner.TextOfExpression` | cxmon/src/mon.cpp:319-802 | An expression in any spacing and spelling evaluates to the value of its tree |
| `Scanner.PrintApart` | cxmon/src/mon.cpp:490-518 | Two words never meet in a printed tree, so it needs no white space |
| `Scanner.PrintScanParse` | cxmon/src/mon.cpp:319-802 | Print, scan, parse: the text of any tree evaluates to its modular word value, or fails exactly when the tree has no value |
| `Monitors.Monitor.GetNumber` | cxmon/src/mon.cpp:398-442 | Hexadecimal and decimal numbers, modulo the word; nothing if they run into a letter |
| `Monitors.Monitor.GetCharNumber` | cxmon/src/mon.cpp:444-457 | A character constant, modulo the word; nothing without the closing quote |
| `Monitors.Monitor.GetString` | cxmon/src/mon.cpp:459-488 | The two passes yield the text up to the closing quote |
| `Monitors.Monitor.GetHexOrName` | cxmon/src/mon.cpp:490-518 | A word is a number if all of it is hexadecimal, else it is read again as a name |
| `Monitors.Monitor.MonGetToken` | cxmon/src/mon.cpp:319-395 | The scanner produces the tokens of the line one by one; each call consumes input, and none goes past the end of the line |
| `Monitors.Monitor.MonExpression` | cxmon/src/mon.cpp:526-552 | The method over mutable scanner state computes what the grammar says, and terminates; what the operators are is in WordBits |
| `Monitors.Monitor.EorExpr` | cxmon/src/mon.cpp:554-580 | The same for `^` |
| `Monitors.Monitor.AndExpr` | cxmon/src/mon.cpp:582-608 | The same for `&` |
| `Monitors.Monitor.ShiftExpr` | cxmon/src/mon.cpp:610-637 | The same for `<<` and `>>` |
| `Monitors.Monitor.AddExpr` | cxmon/src/mon.cpp:645-672 | The same for `+` and `-` |
| `Monitors.Monitor.MulExpr` | cxmon/src/mon.cpp:680-722 | The same for `*`, `/` and `%`, failing on a zero divisor |
| `Monitors.Monitor.Factor` | cxmon/src/mon.cpp:730-802 | The same for operands, parentheses, names, `.`, `:` and unary operators |
| `Monitors.Monitor.ReadArgument` | cxmon/src/mon.cpp:319-802 | End to end on the real state: with the text of a tree ahead, a command gets the tree's value, or fails exactly when it has none, and the lookahead is the first token behind it |
| `TimerTasks.EarliestIsBound` | SheepShaver/src/timer.cpp:653-657 | The computed wakeup is a lower bound of all active deadlines and one of them, or never |
| `TimerTasks.CallsExactlyDue` | SheepShaver/src/timer.cpp:616-637 | One pass calls each active task with a routine exactly once if its deadline is before now, or is now and the pass is not strict; and nothing else |
| `TimerTasks.InstalledBits` | SheepShaver/src/timer.cpp:337-342 | The trap word makes a task extended by its bit 0x400; inserting leaves the task inactive and the other 13 bits of its type alone |
| `TimerThreads.StepKeepsInv` | SheepShaver/src/timer.cpp:357-600 | Every step of emulator thread, timer thread and clock keeps the invariant, with the unlocked test as a step of its own |
| `TimerThreads.RunsKeepInv` | SheepShaver/src/timer.cpp:357-600 | So does every interleaving of them |
| `TimerThreads.NoWakeupIsLost` | SheepShaver/src/timer.cpp:581-600 | In every reachable state outside the calls that recompute it, the wakeup time is no later than any active deadline, or the flag is set, or the thread is about to set it; and no task has two descriptors |
| `TimerThreads.DueTaskRaisesFlag` | SheepShaver/src/timer.cpp:581-600 | Once an active task is due, the timer thread alone raises the flag within five of its own steps |
| `TimerThreads.NoFalseAlarm` | SheepShaver/src/timer.cpp:581-600 | While no task is primed no run of the two threads raises the flag |
| `SheepTimer.VisitedEffect` | SheepShaver/src/timer.cpp:616-636 | What visiting one descriptor does to the list and the task words, and that it leaves all other tasks alone |
| `SheepTimer.HalfwayStep` | SheepShaver/src/timer.cpp:616-637 | With routines that prime or remove their own task the pass stays on course through the saved next pointer |
| `SheepTimer.TimeManager.FindDesc` | SheepShaver/src/timer.cpp:110-120 | The first descriptor of the task, if any |
| `SheepTimer.TimeManager.FreeDesc` | SheepShaver/src/timer.cpp:91-104 | The task has no descriptor afterwards, every other task keeps its deadline, and no task has two |
| `SheepTimer.TimeManager.LookForNext` | SheepShaver/src/timer.cpp:386-393 | The loop leaves the earliest active deadline in the wakeup time |
| `SheepTimer.TimeManager.InsTime` | SheepShaver/src/timer.cpp:337-350 | Refines the insert step of the thread model |
| `SheepTimer.TimeManager.RmvTime` | SheepShaver/src/timer.cpp:357-425 | Refines its remove steps |
| `SheepTimer.TimeManager.PrimeTime` | SheepShaver/src/timer.cpp:432-527 | Refines its prime steps, of which SheepDrift says what deadline they give |
| `SheepTimer.TimeManager.TimerInterrupt` | SheepShaver/src/timer.cpp:608-657 | Calls exactly the tasks active and due (at or before now) at entry, each once and already inactive; every task ends with the deadline and state its routine asked for; the wakeup time is the earliest deadline again |
| `TimerRuns.WalkRuns` | SheepShaver/src/timer.cpp:616-657 | Visiting the descriptors one by one is a run of the machine of the two threads, routines included |
| `TimerRuns.InterruptIsARun` | SheepShaver/src/timer.cpp:608-657 | So a whole pass is one, from serving the flag to the new wakeup time; it ends in the state the method leaves, and no wakeup is lost over it |
| `SheepDrift.PrimedDeadline` | SheepShaver/src/timer.cpp:447-483 | The deadline after `PrimeTime`: the last one and the delay for an extended task with its tmWakeUp set, the time of the call and the delay for any other; an extended task gets the mark 0x12345678 |
| `SheepDrift.PassTicks` | SheepShaver/src/timer.cpp:447-637 | One pass at or after the deadline moves an extended task that primes itself on by its delay from the old deadline; an earlier one leaves it alone |
| `SheepDrift.NoDrift` | SheepShaver/src/timer.cpp:447-637 | Over any sequence of passes its deadline is the first one and n delays, n being the passes that came late enough, whatever their times |
| `SheepDrift.FirstPrimeNoDrift` | SheepShaver/src/timer.cpp:447-637 | From the first `PrimeTime` at time s on, the deadline after n passes, each at or after the deadline, is s and n + 1 delays |
| `SheepDrift.OrdinaryDrifts` | SheepShaver/src/timer.cpp:475-637 | A task that is not extended gets the time at which its routine primes it and the delay |
| `BasiliskTimer.KeepsOneEach` | BasiliskII/src/timer.cpp:174-285 | Inserting, removing and priming keep at most one descriptor per task |
| `BasiliskTimer.LiveDistinct` | BasiliskII/src/timer.cpp:60-101 | So the table is a list of tasks without repetition |
| `BasiliskTimer.VisitedEffect` | BasiliskII/src/timer.cpp:297-317 | What visiting one slot does, and that it leaves other slots and tasks alone |
| `BasiliskTimer.HalfwayStep` | BasiliskII/src/timer.cpp:297-317 | The pass over the table stays on course whatever its routines do to their own tasks |
| `BasiliskTimer.TimeManager.FindDesc` | BasiliskII/src/timer.cpp:95-101 | The first slot in use by the task |
| `BasiliskTimer.TimeManager.AllocDesc` | BasiliskII/src/timer.cpp:68-78 | Takes the first free slot and changes no other; fails exactly when all 64 are in use |
| `BasiliskTimer.TimeManager.InsTime` | BasiliskII/src/timer.cpp:174-186 | A re-inserted task keeps its slot; with a full table only the type bits change |
| `BasiliskTimer.TimeManager.RmvTime` | BasiliskII/src/timer.cpp:193-223 | Frees the slot and marks the task inactive |
| `BasiliskTimer.TimeManager.PrimeTime` | BasiliskII/src/timer.cpp:230-285 | The deadline from the last one for an extended task that ran before, else from now, as BasiliskDrift has it; the task becomes active |
| `BasiliskTimer.TimeManager.TimerInterrupt` | BasiliskII/src/timer.cpp:292-317 | Calls exactly the tasks active and due strictly before now at entry, each once and already inactive |
| `BasiliskDrift.PrimedDeadline` | BasiliskII/src/timer.cpp:241-277 | The deadline after `PrimeTime`: the last one and the delay for an extended task with its tmWakeUp set, the time of the call and the delay for any other; an extended task gets the mark 0x12345678 |
| `BasiliskDrift.PassTicks` | BasiliskII/src/timer.cpp:241-317 | One pass after the deadline moves an extended task that primes itself on by its delay from the old deadline; one at the deadline or before leaves it alone |
| `BasiliskDrift.NoDrift` | BasiliskII/src/timer.cpp:241-317 | Over any sequence of passes its deadline is the first one and n delays, n being the passes that came late enough, whatever their times |
| `BasiliskDrift.FirstPrimeNoDrift` | BasiliskII/src/timer.cpp:241-317 | From the first `PrimeTime` at time s on, the deadline after n passes, each after the deadline, is s and n + 1 delays |
| `BasiliskDrift.OrdinaryDrifts` | BasiliskII/src/timer.cpp:271-317 | A task that is not extended gets the time at which its routine primes it and the delay |
| `ScsiTable.TotalCoalesced` | BasiliskII/src/scsi.cpp:96-115 | The lengths in the table add up to those of the transfers modulo 2^32, and exactly if and only if no merge overflowed |
| `ScsiTable.FlattenCoalesced` | BasiliskII/src/scsi.cpp:96-115 | The table stands for exactly the addresses of the transfers, in order, if and only if no merge overflowed 32 bits |
| `ScsiTable.OverflowedExactly` | BasiliskII/src/scsi.cpp:96-115 | A merge overflows if and only if some run of transfers, each starting where the one before ends, is 2^32 bytes long or longer |
| `ScsiTable.OverflowExample` | BasiliskII/src/scsi.cpp:103-105 | Two transfers whose merged length wraps: the table then stands for one byte |
| `ScsiTable.SmallTransfersFit` | BasiliskII/src/scsi.cpp:103-105 | A transaction below 2^32 bytes never overflows |
| `ScsiTable.NeighboursApart` | BasiliskII/src/scsi.cpp:98-115 | No two neighbouring entries are contiguous |
| `Scsi.ReadWritten` | BasiliskII/src/scsi.cpp:116-153 | Words written into the program's own memory read back |
| `Scsi.ReadIsBigEndian` | BasiliskII/src/scsi.cpp:94-97 | Opcodes and operands are big-endian numbers |
| `Scsi.Read16Written` | BasiliskII/src/scsi.cpp:311-327 | The 16-bit words written for the caller read back |
| `Scsi.MemoryOperations` | BasiliskII/src/scsi.cpp:133-153 | scAdd leaves the sum of word and operand at its first operand, scMove the word of the first operand at the second, scLoop its counter less one and the place to go on; no other byte and nothing of the table changes |
| `Scsi.OtherOperations` | BasiliskII/src/scsi.cpp:116-163 | scInc and scNoInc transfer the bytes named, unless the table has 1024 entries and the last one does not end there (-108); scInc moves its pointer on; scStop, scComp and unknown codes end with 0, 6 and 4 |
| `Scsi.StepAccounted` | BasiliskII/src/scsi.cpp:91-164 | Every TIB operation, also one that fails on a full table, keeps table, index and total in step with the transfers done |
| `Scsi.RunAccounted` | BasiliskII/src/scsi.cpp:91-164 | So does every run of a self-modifying program, however it ends |
| `Scsi.CountedLoopCoalesces` | BasiliskII/src/scsi.cpp:116-153 | scInc, scLoop(-10, n), scStop on an empty table ends, with one entry of n * len bytes if and only if the pointer stays in memory and the length in 32 bits |
| `Scsi.CountedLoopEnds` | BasiliskII/src/scsi.cpp:91-164 | From any table that loop ends within 2 n + 1 operations: after exactly n transfers with the pointer in memory advanced by n * len and the counter at zero, or with the table full; never the latter from an empty table while the pointer stays in memory |
| `ScsiManager.Manager.AddTransfer` | BasiliskII/src/scsi.cpp:96-115 | A transfer extends the last entry or takes a new one; a full table refuses it and changes nothing |
| `ScsiManager.Manager.ExecOne` | BasiliskII/src/scsi.cpp:94-161 | One turn of the interpreter is one step of the TIB machine |
| `ScsiManager.Manager.ExecTib` | BasiliskII/src/scsi.cpp:91-164 | The interpreter runs the TIB machine and keeps the transaction accounted for |
| `ScsiManager.Manager.SCSIReset` | BasiliskII/src/scsi.cpp:171-180 | Back to the free phase with an empty table |
| `ScsiManager.Manager.SCSIGet` | BasiliskII/src/scsi.cpp:187-199 | Busy, with nothing changed, outside the free phase; else a new transaction |
| `ScsiManager.Manager.SCSISelect` | BasiliskII/src/scsi.cpp:206-227 | Phase and result in each of its four cases; the table is untouched |
| `ScsiManager.Manager.SCSICmd` | BasiliskII/src/scsi.cpp:234-273 | Likewise for a command |
| `ScsiManager.Manager.ReadOrWrite` | BasiliskII/src/scsi.cpp:280-304 | Refused outside the data phase; else the program runs against the transaction's table |
| `ScsiManager.Manager.SCSIStat` | BasiliskII/src/scsi.cpp:334-338 | In every reachable state the status word tells the phase: 0, 0x40, 0x6a or 0x6e |
| `ScsiManager.Manager.SCSIComplete` | BasiliskII/src/scsi.cpp:311-327 | The host gets a table that stands for exactly the transfers of the transaction if and only if no merge overflowed, with the right total; the phase is free again |
| `Kernels.Unrolled` | SheepShaver/src/gfxaccel.cpp:94-120 | Entering the unrolled loop at any case rewrites exactly that many words |
| `Kernels.Words` | SheepShaver/src/gfxaccel.cpp:94-120 | Duff's device rewrites every eight-byte word of the row once, for every length |
| `Kernels.DoTail` | SheepShaver/src/gfxaccel.cpp:121-131 | The cells behind the words are rewritten once each |
| `Kernels.DoRow` | SheepShaver/src/gfxaccel.cpp:72-131 | The kernel rewrites each byte of the row exactly once and no other, for every length and pixel size |
| `QuickDraw.CoveredOnce` | SheepShaver/src/gfxaccel.cpp:157-177 | Rows at least a row's width apart never cover an address twice |
| `QuickDraw.InvertParity` | SheepShaver/src/gfxaccel.cpp:157-177 | Inversion complements a byte once for every row over it, even where rows overlap |
| `QuickDraw.InvertExactly` | SheepShaver/src/gfxaccel.cpp:139-178 | With rows apart it complements exactly the rectangle |
| `QuickDraw.InvertTwice` | SheepShaver/src/gfxaccel.cpp:139-178 | Inverting any rectangle twice is the identity |
| `QuickDraw.FillExactly` | SheepShaver/src/gfxaccel.cpp:253-292 | A fill leaves the pen at its place in each row, and every other byte alone |
| `QuickDraw.Fill32` | SheepShaver/src/gfxaccel.cpp:285-290 | A 32-bit row gives every pixel the pen |
| `QuickDraw.Fill16` | SheepShaver/src/gfxaccel.cpp:279-284 | A 16-bit row gives every pixel the low half of the pen if and only if both halves are equal, or it is one pixel on a big-endian host |
| `QuickDraw.Fill8` | SheepShaver/src/gfxaccel.cpp:273-278 | An 8-bit row gives every pixel the low byte of the pen if and only if the host is big-endian or the outer bytes of the pen are equal |
| `QuickDraw.FillSetsPen` | SheepShaver/src/gfxaccel.cpp:253-292 | So a fill sets every pixel of a rectangle to the pen exactly under these conditions, at each of the three pixel sizes |
| `QuickDraw.PenSeven` | SheepShaver/src/gfxaccel.cpp:262-278 | On a little-endian host an 8-bit fill with pen 7 leaves 0 everywhere |
| `QuickDraw.WholePixels` | SheepShaver/src/gfxaccel.cpp:146-157 | A row is a whole number of pixels even where its width was cut to 16 bits |
| `QuickDraw.Invrect` | SheepShaver/src/gfxaccel.cpp:139-178 | Inverts the rows of the rectangle |
| `QuickDraw.Fillrect` | SheepShaver/src/gfxaccel.cpp:253-292 | Fills the rows of the rectangle |
| `Pixels.CoversRect` | SheepShaver/src/gfxaccel.cpp:139-157 | For any bounds, the rows of an operation cover the bytes of the pixels in the rectangle and of no other pixel of the bitmap |
| `Pixels.InvertsRect` | SheepShaver/src/gfxaccel.cpp:139-178 | Inversion complements every byte of the pixels of the rectangle and no byte of any other pixel of the bitmap |
| `Pixels.FillsRect` | SheepShaver/src/gfxaccel.cpp:253-292 | A fill with a pen that fits makes the pixels of the rectangle the pen; every other pixel stays |
| `Blit.MovedIsSnapshot` | SheepShaver/src/gfxaccel.cpp:339-360 | Rows apart and in the safe order: moving row after row equals moving them all at once |
| `Blit.BlitExactly` | SheepShaver/src/gfxaccel.cpp:339-360 | With equal strides, moving row after row has snapshot semantics on every memory if and only if no source row still to be read lies under one already written |
| `Blit.SafeDirection` | SheepShaver/src/gfxaccel.cpp:339-360 | The forward branch with destination at or below the source, and the reverse branch with it at or above, are always safe |
| `Blit.SeparateIsSnapshot` | SheepShaver/src/gfxaccel.cpp:321-361 | Between bitmaps that do not share a byte rows move as if at once, whatever the strides |
| `Pixels.BlitsPixel` | SheepShaver/src/gfxaccel.cpp:321-361 | In both branches, for any bounds and strides, a pixel (x, y) of the destination rectangle becomes the pixel at the same place of the source rectangle, where rows move as if at once |
| `Pixels.BlitKeepsOthers` | SheepShaver/src/gfxaccel.cpp:321-361 | The other pixels of the destination bitmap stay, whatever overlaps |
| `Blit.ScrollSmears` | SheepShaver/src/gfxaccel.cpp:339-349 | A scroll down by one row with positive strides is not safe: some memory ends wrong |
| `Blit.OthersKept` | SheepShaver/src/gfxaccel.cpp:339-360 | Bytes outside the destination rows stay |
| `Blit.Bitblt` | SheepShaver/src/gfxaccel.cpp:321-361 | Both branches move the rows in the order and with the strides given |
| `RomTrap.ReadCode` | BasiliskII/src/rom_patches.cpp:130-152 | Each of the four codes reads back as the entry it was written for |
| `RomTrap.LookupWritten` | BasiliskII/src/rom_patches.cpp:124-156 | Entry k of a written table, anywhere in memory, is found |
| `RomTrap.NextEntry` | BasiliskII/src/rom_patches.cpp:133-152 | One entry is consumed with its size and its step of the running offset |
| `RomTrap.FindRomTrap` | BasiliskII/src/rom_patches.cpp:124-156 | The search counts through both blocks and answers with the entry of the trap, after a bounded scan |
| `RomTrap.TableIsSearched` | BasiliskII/src/rom_patches.cpp:124-156 | In any written table any trap of the 0xa800 or 0xa000 block gives its offset, or 0 if it is not implemented |
| `RomTrap.EncodedTableIsSearched` | BasiliskII/src/rom_patches.cpp:124-156 | Every list of 2048 entries has an encoding from which the search gets each entry back |
| `ExtFs.ReachableWellFormed` | BasiliskII/src/extfs.cpp:264-354 | In every reachable catalogue ids are distinct and below the next one, and each item but the first has an earlier parent whose id it knows |
| `ExtFs.SwapWellFormed` | BasiliskII/src/extfs.cpp:344-354 | The id swap of two items below the root keeps the tree |
| `ExtFs.SwapKeepsPaths` | BasiliskII/src/extfs.cpp:2076-2083 | and changes no item's path |
| `ExtFs.SwapResolves` | BasiliskII/src/extfs.cpp:2076-2083 | After the swap the old id names the new item under its path, and the new id the old one |
| `ExtFs.OtherIdsKept` | BasiliskII/src/extfs.cpp:2076-2083 | All other ids keep item and path |
| `ExtFs.PathFromRoot` | BasiliskII/src/extfs.cpp:326-337 | The path of an item of the volume begins with the path of the root and goes on with the names down to the item |
| `ExtFs.PathsDiffer` | BasiliskII/src/extfs.cpp:326-337 | Without two items of one parent and name no two items of the volume have the same path |
| `ExtFs.FirstIds` | BasiliskII/src/extfs.cpp:264-279 | Id 1 above the root, 2 for the root, 16 for the first item found; guest names are the converted ones, cut to 31 characters |
| `ExtFs.DuplicateRun` | BasiliskII/src/extfs.cpp:285-313 | A guest name that does not survive conversion to the host and back leads to two items of one name |
| `ExtFs.UniqueExactly` | BasiliskII/src/extfs.cpp:285-313 | No run ever makes two items with one parent and host name if and only if every guest name of at most 31 characters survives the conversion |
| `ExtFs.FoundPath` | BasiliskII/src/extfs.cpp:285-296 | Looking up a name in a directory gives an item whose path is the directory's, extended by the name |
| `ExtFs.FoundGuestPath` | BasiliskII/src/extfs.cpp:302-313 | The same for a guest name: the item has that guest name and parent |
| `ExtFs.FileSystem.constructor` | BasiliskII/src/extfs.cpp:438-480 | The catalogue starts out well formed with the root and its parent |
| `ExtFs.FileSystem.FindFsitemById` | BasiliskII/src/extfs.cpp:249-258 | The first item with the id |
| `ExtFs.FileSystem.CreateFsitem` | BasiliskII/src/extfs.cpp:264-279 | Adds one item at the end with the next id |
| `ExtFs.FileSystem.FindFsitem` | BasiliskII/src/extfs.cpp:285-296 | Finds by host name and parent, or creates |
| `ExtFs.FileSystem.FindFsitemGuest` | BasiliskII/src/extfs.cpp:302-313 | Finds by guest name and parent, or creates |
| `ExtFs.FileSystem.GetPathForFsitem` | BasiliskII/src/extfs.cpp:326-337 | The recursion over parents ends and yields the path |
| `ExtFs.FileSystem.SwapParentIds` | BasiliskII/src/extfs.cpp:344-354 | Exchanges two parent ids in all items in one pass |
| `ExtFs.FileSystem.Renamed` | BasiliskII/src/extfs.cpp:2060-2083 | The host is asked for the path of the directory extended by the new name; if it renames the file the old id resolves to the item of that name and to that path, otherwise no id has moved |
| `ExtFs.FileSystem.Moved` | BasiliskII/src/extfs.cpp:2120-2129 | After a move the old id resolves to the new directory's path extended by the old name |
| `EtherTypes.TestMeans` | SheepShaver/src/ether.cpp:79-82 | Testing the bit array is membership in a set of SAPs taken in pairs |
| `EtherTypes.SetMeans` | SheepShaver/src/ether.cpp:63-66 | Setting a bit adds the pair to the set and nothing else |
| `EtherTypes.ClearMeans` | SheepShaver/src/ether.cpp:68-71 | Clearing a bit removes it and nothing else |
| `EtherTypes.BigBack` | SheepShaver/src/ether.cpp:873-923 | A 16-bit field reads back from its two bytes |
| `DlpiStreams.RemovedMeans` | SheepShaver/src/ether.cpp:92-111 | Removing an address from a list without duplicates removes just it |
| `DlpiStreams.HandleKeeps` | SheepShaver/src/ether.cpp:1343-1661 | Every request, refused or not, keeps the invariant of a stream |
| `DlpiStreams.RunsKeepInv` | SheepShaver/src/ether.cpp:1343-1661 | In every reachable stream an idle SNAP stream is bound to the SNAP SAP, an idle stream above the 802.2 range has no group SAPs, the multicast list has no duplicates, and multicasts are filtered exactly while it is not empty |
| `DlpiStreams.RefusedChangesNothing` | SheepShaver/src/ether.cpp:1499-1509 | A refused request changes nothing, but for a subsequent bind that cannot be acknowledged: the stream is bound all the same |
| `DlpiStreams.BindForgets` | SheepShaver/src/ether.cpp:1399-1407 | A bind makes up for the group SAPs that opening a stream leaves uninitialised |
| `DlpiStreams.BoundToGroupSap` | SheepShaver/src/ether.cpp:1361-1371 | A stream gets bound to a group SAP exactly when the request carries it below a non-zero upper half |
| `DlpiStreams.AcceptAllStays` | SheepShaver/src/ether.cpp:1475-1476 | A stream that takes all 802.2 packets does so for ever, over unbinding and binding |
| `DlpiStreams.GlobalSapStays` | SheepShaver/src/ether.cpp:1399-1402 | From a bind in the 802.2 range to the unbind a stream keeps the global SAP, whatever is requested |
| `DlpiStreams.GroupRoundTrip` | SheepShaver/src/ether.cpp:1468-1577 | Entering a group SAP and removing it restores the binding exactly when the SAP was new and no SNAP binding gets lost |
| `DlpiStreams.Stream.SetGroupSAP` | SheepShaver/src/ether.cpp:63-66 | On the array: adds one pair |
| `DlpiStreams.Stream.ClearGroupSAP` | SheepShaver/src/ether.cpp:68-71 | On the array: removes one pair |
| `DlpiStreams.Stream.ClearAllGroupSAPs` | SheepShaver/src/ether.cpp:73-77 | Empties the set |
| `DlpiStreams.Stream.TestGroupSAP` | SheepShaver/src/ether.cpp:79-82 | Membership |
| `DlpiStreams.Stream.IsMulticastRegistered` | SheepShaver/src/ether.cpp:113-122 | Membership in the multicast list |
| `DlpiStreams.Stream.RemoveMulticast` | SheepShaver/src/ether.cpp:92-111 | Unlinks the first node with the address |
| `DlpiStreams.Stream.Bind` | SheepShaver/src/ether.cpp:1343-1415 | Reply and new binding as the specification has them, the bit array standing for its set |
| `DlpiStreams.Stream.Unbind` | SheepShaver/src/ether.cpp:1422-1446 | Likewise |
| `DlpiStreams.Stream.SubsBind` | SheepShaver/src/ether.cpp:1453-1531 | Likewise, for group SAPs, all 802.2 packets and SNAPs |
| `DlpiStreams.Stream.SubsUnbind` | SheepShaver/src/ether.cpp:1538-1582 | Likewise |
| `DlpiStreams.Stream.EnableMulti` | SheepShaver/src/ether.cpp:1589-1621 | Likewise |
| `DlpiStreams.Stream.DisableMulti` | SheepShaver/src/ether.cpp:1628-1661 | Likewise |
| `EtherReceive.MulticastFilter` | SheepShaver/src/ether.cpp:1121-1123 | A reachable stream gets a multicast packet that matches it unless it has registered other addresses only |
| `EtherReceive.DixExactly` | SheepShaver/src/ether.cpp:1088-1118 | A classic Ethernet packet matches the streams bound to its type and no others |
| `EtherReceive.SnapStreamsApart` | SheepShaver/src/ether.cpp:1097-1106 | Streams with different SNAP bindings never share a SNAP packet |
| `EtherReceive.GlobalSapHeard` | SheepShaver/src/ether.cpp:1111-1115 | From bind to unbind an 802.2 stream matches every 802.2 packet for the global SAP that does not look like IPX |
| `EtherRequests.AfterTypeBind` | SheepShaver/src/ether.cpp:1343-1415 | After a bind to an Ethernet type a stream hears the packets of that type (bytes 12 and 13, the high one first) |
| `EtherRequests.AfterSapBind` | SheepShaver/src/ether.cpp:1399-1402 | After a bind to an even SAP it hears the 802.2 packets for that SAP and those for 0xff that are not IPX |
| `EtherRequests.AfterGroupBind` | SheepShaver/src/ether.cpp:1468-1473 | After a subsequent bind to a group SAP also the 802.2 group packets for that SAP |
| `EtherRequests.AfterAcceptAll` | SheepShaver/src/ether.cpp:1475-1476 | After a subsequent bind to SAP 0 all 802.2 packets |
| `EtherRequests.AfterSnapBind` | SheepShaver/src/ether.cpp:1483-1495 | After a hierarchical bind only the SNAP packets with its SNAP |
| `EtherRequests.AfterSnapUnbind` | SheepShaver/src/ether.cpp:1555-1572 | After its removal all packets for the SNAP SAP again |
| `EtherRequests.AfterEnable` | SheepShaver/src/ether.cpp:1589-1621 | After enabling a multicast address it wants, of the matching multicast packets, those for this and its other registered addresses |
| `EtherRequests.AfterDisable` | SheepShaver/src/ether.cpp:1628-1661 | After disabling it those for the others, or for all addresses once none is left |
| `EtherRequests.GrantedExactly` | SheepShaver/src/ether.cpp:1343-1661 | Each of the six requests is granted exactly under its conditions on state, SAP, class, length and list; in the wrong state it is refused as such |
| `EtherReceive.SameSnap` | SheepShaver/src/ether.cpp:1100-1106 | Collecting differing bits is comparing |
| `EtherReceive.Wanted` | SheepShaver/src/ether.cpp:1088-1123 | The tests decide exactly whether state, SAP, SNAP, group SAPs and multicast list ask for the packet |
| `EtherReceive.HandleReceivedPacket` | SheepShaver/src/ether.cpp:979-1058 | A stream's queue gets one message with the headers hidden outside raw mode, as an indication or bare on the fast path, as EtherDelivery.EveryTakerIsGiven has it; or the message is freed |
| `EtherReceive.NumbersDistinct` | SheepShaver/src/ether.cpp:1125-1137 | No two streams get the same copy |
| `EtherReceive.NumbersAllTaken` | SheepShaver/src/ether.cpp:1125-1137 | Every copy, and the original, has a taker |
| `EtherReceive.OriginalToLast` | SheepShaver/src/ether.cpp:1125-1137 | The original goes to the last stream that wants the packet |
| `EtherReceive.EachMessageOnce` | SheepShaver/src/ether.cpp:1082-1142 | The original and each duplicate is in exactly one queue, or freed |
| `EtherReceive.NothingLost` | SheepShaver/src/ether.cpp:1082-1142 | When allocation succeeds each stream that wants the packet gets exactly one message and the rest none; the original is freed exactly when nobody wants it |
| `EtherReceive.PacketReceived` | SheepShaver/src/ether.cpp:1065-1142 | The loop that keeps the stream found last distributes the packet so: duplicates in list order to all but the last, the original to the last, one duplicate less than takers |
| `EtherTransmit.MsgDSize` | SheepShaver/src/ether.cpp:876 | The number of data bytes behind the request |
| `EtherTransmit.ReuseMessageBlock` | SheepShaver/src/ether.cpp:803-835 | On each of its three ways there is room for the header in front of the unchanged payload, in a buffer nobody shares; no message only without memory |
| `EtherTransmit.Assembled` | SheepShaver/src/ether.cpp:922-947 | The assignments to the parts of the header make up the whole of it |
| `EtherTransmit.BuildTxPacketHeader` | SheepShaver/src/ether.cpp:844-951 | The message is the header for the destination followed by the unchanged payload |
| `EtherTransmit.PathsAgree` | SheepShaver/src/ether.cpp:881-911 | The normal path and the fast path, where the length is filled in on transmission, send the same frame |
| `EtherTransmit.LengthField` | SheepShaver/src/ether.cpp:958-967 | In 802.2, SNAP and IPX frames the length field (section 3.2.6 of IEEE 802.3) is the number of bytes behind the Ethernet header modulo 65536, and exactly it when that fits |
| `EtherTransmit.MessageToBuffer` | SheepShaver/src/include/ether.h:73-84 | The frame is the bytes of all blocks in a row |
| `EtherTransmit.TransmitPacket` | SheepShaver/src/ether.cpp:958-972 | The frame that leaves has length and source address filled in |
| `EtherTransmit.UnitData` | SheepShaver/src/ether.cpp:1668-1705 | A bound stream sends exactly the frame for the destination and data, an unbound one returns the destination in an error indication; nothing happens only without memory |
| `EtherTransmit.SentIsHeard` | SheepShaver/src/ether.cpp:844-1142 | What one stream sends, a stream with the same binding matches: always for classic types, for 802.2 and SNAP exactly while the length stays below the types, for IPX if besides the data begins with 0xff |
| `EtherDelivery.RequestRead` | SheepShaver/src/ether.cpp:846-856 | A request laid out as primitive 7, length, offset, priority and destination is read as that destination |
| `EtherDelivery.Targets` | SheepShaver/src/ether.cpp:858-871 | A destination of 6 bytes leaves SAP and SNAP of the sender, one of 8 names a SAP, one of 13 a SAP and a SNAP |
| `EtherDelivery.InOrder` | SheepShaver/src/ether.cpp:1070-1080 | Types and lengths stand in a packet with the high byte first |
| `EtherDelivery.TypeFrame` | SheepShaver/src/ether.cpp:881-947 | The frame of a stream with an Ethernet type: the type in bytes 12 and 13, then exactly the data |
| `EtherDelivery.SapFrame` | SheepShaver/src/ether.cpp:881-947 | The frame of an 802.2 stream: the length, the SAP of the destination, the SAP of the sender, 3; for SNAP its five bytes; then exactly the data |
| `EtherDelivery.IpxFrame` | SheepShaver/src/ether.cpp:881-947 | The frame of an IPX stream: the length, then exactly the data |
| `EtherDelivery.NamedIsHeard` | SheepShaver/src/ether.cpp:844-1142 | A stream bound to the SAP, and SNAP, that a destination names hears the frame sent there, under the same exact condition |
| `EtherDelivery.EveryTakerIsGiven` | SheepShaver/src/ether.cpp:979-1058 | Each stream that wants a packet gets one message: hidden headers of 14, 17 or 22 bytes; in the indication destination and source address, both SAPs in their order, the SNAP, and the kind of address |
| `EtherDelivery.ReceivedType` | SheepShaver/src/ether.cpp:1070-1080 | A receiver takes the frame for the type it was sent as, but for IPX data without a second byte 0xff |
| `EtherDelivery.Arrives` | SheepShaver/src/ether.cpp:844-1142 | End to end: the stream that hears a frame gets one message, which names the destination and the hardware address of the sender, for 802.2 and SNAP with their SAPs, and brings the whole frame in raw mode and otherwise exactly the data that was sent; for IPX data if and only if its second byte is 0xff |

## Left out

- The patching of ROMs by byte patterns, driver stubs, resources, preferences and the host side of files, sockets, audio and video: data and calls rather than algorithms.
- cxmon: the error messages, and the commands themselves. Shifting by the word width or more is undefined in C; the model lets the host do anything with it (`overshift` in `Expressions.Env`).
- Pict.ConvertRGBAToPICT: images of up to 16383 pixels a row; for wider ones the C code cuts the size of a row to 16 bits and writes outside its row buffer. Nothing is said of the bytes of a row whose code wraps, only of its length. Index products are unbounded, the C code computes them in `int`.
- PackBits.CompressUsingRLE: says nothing of the contents of the buffer once the 16-bit cursor has wrapped, only of the returned length; no contents of that length yield the row.
- Lzss.DecodeLzss: requires room for the output, which the C code leaves to its caller.
- Time Manager: the remaining time in `tmCount`, `PrimeTime(0)`, the queue links, the interrupt from another thread while `TimerReset` runs, deadlines left over in descriptors that are made again, signals, semaphores and the suspension of threads; critical sections are atomic steps.
- TimerRuns.InterruptIsARun: the routines' times do not go back.
- SheepTimer.TimeManager.TimerInterrupt: routines act on their own task only; a routine that frees the next descriptor would invalidate the saved pointer.
- BasiliskTimer.TimeManager.TimerInterrupt: the same restriction on routines.
- ScsiManager.Manager.ExecTib: runs a given number of operations, as a transfer program need not end; termination is proved for the counted loop.
- ScsiManager.Manager.SCSIComplete: the transfer itself and the timeout are the host's.
- Graphics: the alignment prologue of the kernels (unaligned access is taken as profitable), the tracking of dirty areas, transfer modes other than copying, and address arithmetic modulo 2^32.
- Blit.BlitExactly: for equal strides of source and destination, as within one bitmap, and rows that do not overlap each other; with other strides `Blit.SeparateIsSnapshot` decides only bitmaps that share no byte.
- Pixels.BlitsPixel, Pixels.InvertsRect, Pixels.FillsRect: rectangles inside their bitmap with coordinates and widths that 16 bits can hold; the operations themselves are modelled with the cut to 16 bits.
- RomTrap.FindRomTrap: a table that runs past the ROM is an explicit outcome, where the C code would read on.
- ExtFS: reading and writing files, the path components given by the guest, the limit on the length of a path, the wrap-around of ids after 2^32 items, and renaming or moving the root. Items are values in a list and point to their parents by position.
- ExtFs.FileSystem.GetPathForFsitem: a path is a list of components; joining them with separators and cutting the result to the size of the buffer are not part of this model.
- ExtFs.FileSystem.Renamed: the paths of items below a renamed directory, whose parent pointers still lead to the old item; the walk over the components of the guest's path name, of which only the last one is looked up here; and the new name must not be that of the root in its parent.
- ExtFs.FileSystem.Moved: the same; and the name must not be that of the root in its parent.
- DLPI: acknowledgements are reduced to their outcome; information requests, flushing, the framing and raw mode ioctls, and the double release of a removed multicast node are not part of this model.
- EtherReceive.PacketReceived: duplicating a message is assumed to succeed, as the C code does; packets are at least 22 bytes long, as the C code reads that far.
- EtherDelivery.Arrives: sender and destination both with Ethernet types or both in the 802.2 range.
- EtherTransmit.BuildTxPacketHeader: destinations of 6 to 13 bytes that lie within the request; a block with reference count 1 shares its buffer with no other.
