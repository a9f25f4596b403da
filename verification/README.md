# Verified models of RISC/os stand-alone and header code

A Dafny project that models the self-contained algorithms of RISC/os 4.52 and proves what they promise:

- the regular-expression compiler and backtracking matcher of `head/regexp.h` (`Regexp*.dfy`);
- the bit-block transfer of `SA/saio/bitmap.c` (`Bitmap*.dfy`);
- breakpoints and single-stepping in the debug monitor, `SA/dbgmon/brkpt.c` (`Brkpt*.dfy`);
- scatter/gather transfers and command blocks in `SA/saio/common_scsi.c` (`Scsi*.dfy`);
- the boot file server client of `SA/saio/bfs.c` (`Bfs*.dfy`);
- the host/board descriptor rings and the permuted copy of `SA/saio/cmc.c` (`Cmc*.dfy`);
- the number printers and parser of `SA/saio/libc.c`, `SA/dbgmon/rdebug.c` and `SA/prom/commands.c` (`Number*.dfy`),
  the S-record loader of `SA/prom/commands.c` (`Srecord*.dfy`), and the block-cached reads of `SA/saio/dvh.c`
  (`DvhFile.dfy`).

`dafny verify dfyconfig.toml` checks everything.  Routines that change state are classes and methods with loops, each
proved against a specification function; what the source promises is then proved about those functions.

## How the parts are modelled

**Regular expressions.**  A pattern is a list of items: atoms with quantifiers, `$`, group marks, back-references.  Its
meaning is declarative: `RegexpPattern.Follow` says where a given choice of repetition counts leads in a text, and the
first choice is the one that is longest at each quantifier in turn.  `RegexpMatcher.Matcher` runs the byte code over the
static slots that the source never restores when it backtracks.  `RegexpParse` says what pattern text is read as;
`RegexpNotation` says how items are written, and `RegexpFlaws` what is wrong with what cannot be read.  `GETC`, `PEEKC`
and `UNGETC` work on a C string with a cursor, `ERROR` does not return, characters are unsigned, and pattern numbers wrap
at 32 bits as the `int` they are kept in.  `locs` may be anything.  Reading past the NUL of a pattern that lacks its
delimiter is the outcome `Overrun`.

**Bit-block transfer.**  Words are 32 bits; pixel x is bit 31 - x mod 32 of word x/32.  The rows of a rectangle must lie
in the bitmap.  Memory has one word before and one behind the bitmap, because the loops read a source word beyond the
ones they use and may rewrite the word behind a row with the value it has.  Two different bitmaps have different
memories.

**Breakpoints.** `BrkptMachine` is the mutual recursion of `bp_continue` and `step1` as functions over the monitor's
state; `BrkptRun` adds commands and traps, and runs of both; `BrkptStart` says when the client is started, and
`BrkptCommands` what the commands are for; `BrkptMonitor.Monitor` is the C code over a table changed in place.
`_resume` and the exception entry are assembly: install, run the client to a trap, remove, then `_bp_fault`.  What the
client does in between (registers, stores, where it stops and why) is arbitrary, but in `BrkptRun.OneStep`, where it
fetches from the text with the breakpoints in it.  `BrkptInst.Successor` is the architecture's own account of where a
MIPS-I instruction leads.

**SCSI.**  Addresses are those of the buffer; a piece is one scatter/gather entry or the bytes moved by hand before or
behind them.  `DEV_BSIZE`, sectors and `un_sectsize` are 512.

**Boot file server.**  The network delivers any server's answer to any request sent so far, any number of times and in
any order, or not at all, with time-outs and stray packets between (`BfsNetwork`).  Servers hold different files, do not
change them, and answer as asked.

**Rings.**  `CmcProtocol` interleaves single memory accesses of both sides; `CmcDriver` is the driver's own code between
the board's accesses.

**Numbers, records, files.**  Words are 32 bits and wrap.  `At` gives the NUL behind a C string.  `NumberNotation` and
`SrecordImage` say how numbers and records are written; `SrecordEndings` how a load ends otherwise than by its last record.

## Where the code does otherwise than documented or meant

The models follow the code.

- `op` computes `s & ~d` for code 11, where its table has `s | ~d` (`BitmapWords.TableHolds`).
- The bound 255 in `\{m,255\}` means "no bound" (`RegexpPattern.BoundHeld`), and `getrnge` then allows 20000 more
  repetitions, so that `\{m,\}` is bounded too (`RegexpPattern.OpenBound`).
- A match attempt runs for ever on some text exactly if a starred back-reference can be reached with its group empty
  (`RegexpTermination.SafeIffEnds`), as in `\(a*\)\1*` (`RegexpTermination.EmptyReferenceHangs`).
- `compile` accepts a back-reference inside its own group, because it counts closings only
  (`RegexpMeaning.AcceptedIsScoped`, `RegexpMeaning.InsideReferenceAccepted`).
- A file name as long as `_bfsopen` allows leaves no room for a whole block (`BfsPacket.AnswerFits`).
- `S` steps into subroutines from its second step on when it starts at a breakpoint (`BrkptMachine.StaysSteppingOver`,
  `BrkptMachine.StepsIntoFromBreakpoint`).
- Requests are combined although they are not contiguous if the first is itself a remainder, and then land before
  their places (`ScsiQueue.StartQueue`, `ScsiQueue.RemainderCombined`); remainders start in mid-sector unless the buffer
  starts at a sector's multiple (`ScsiQueue.Carry`, `ScsiQueue.SplitInMidSector`).
- `hwcopy` of no bytes between odd addresses copies 2^32 (`CmcCopy.OddByteCounts`).
- `_dvhread` is not clipped if offset and count pass the largest integer (`DvhFile.ClippedRight`).

## Model

| member | source | states |
|---|---|---|
| RegexpCode.TestsIffAccepts | head/regexp.h:45-46 | the bit map test of a class decides exactly the characters the atom accepts, NUL included |
| RegexpCode.OpcodeTells | head/regexp.h:328-330 | the opcode at hand says exactly which kind of item, or the end, the program goes on with |
| RegexpBits.PlaceAdds | head/regexp.h:45 | PLACE adds one character to the set a bit map stands for, and no other |
| RegexpBits.InvertInverts | head/regexp.h:188-198 | inverting the bytes of a class complements its set |
| RegexpSearch.SearchIsFirst | head/regexp.h:319-511 | the backtracking search finds the first choice of repetition counts that matches, and fails only if no choice does |
| RegexpSearch.PrependIsFirst | head/regexp.h:500-507 | trying shorter runs after longer ones yields the longest-first choice |
| RegexpSearch.MostCopiesIsMost | head/regexp.h:456-461 | the loop over a starred back-reference counts exactly the copies there are |
| RegexpSearch.TryCopiesIsFirst | head/regexp.h:463-467 | dropping copies one at a time finds the first choice |
| RegexpMatcher.Matcher.constructor | head/regexp.h:49-57 | nine slots for the starts of groups and nine for their ends, holding anything; no anchor, and no place forbidden |
| RegexpMatcher.EcmpIffCopy | head/regexp.h:47 | comparing at most n characters of two places in one text tells exactly whether there is a copy |
| RegexpMatcher.Matcher.GetRnge | head/regexp.h:513-519 | low and size are the bounds of an interval, 255 standing for no bound |
| RegexpMatcher.Matcher.Advance | head/regexp.h:319-511 | run on any program that encodes items, it ends with what the search finds, loc2 being the end of the first match, although slots are never restored; it ends, in bounds |
| RegexpMatcher.Matcher.Unrepeated | head/regexp.h:332-376 | each item without a quantifier leads to where the declarative meaning leads |
| RegexpMatcher.Matcher.Character | head/regexp.h:332-368 | one character is accepted exactly if its atom accepts it |
| RegexpMatcher.Matcher.GroupBegin | head/regexp.h:370-372 | the slot holds the start of the group on the current path |
| RegexpMatcher.Matcher.GroupEnd | head/regexp.h:374-376 | the slot holds the end of the group on the current path |
| RegexpMatcher.Matcher.BackReference | head/regexp.h:446-454 | compares with the start and end chosen on the current path |
| RegexpMatcher.Matcher.StarCase | head/regexp.h:470-498 | a starred atom behaves as the search from its longest run down |
| RegexpMatcher.Matcher.RangeCase | head/regexp.h:378-444 | an interval behaves as the search from its longest run down to its lower bound |
| RegexpMatcher.Matcher.RequiredRun | head/regexp.h:381-383 | the loop on low takes the required characters or finds that there are fewer |
| RegexpMatcher.Matcher.OptionalRun | head/regexp.h:384-389 | the loop on size ends one past the longest run allowed, at most one past the NUL |
| RegexpMatcher.Matcher.TryShorter | head/regexp.h:500-507 | the label star tries each run down to the shortest, stopping at locs |
| RegexpMatcher.Matcher.BackLoop | head/regexp.h:456-467 | a starred back-reference behaves as the search over its copies; an empty one never ends |
| RegexpMatcher.Matcher.AllCopies | head/regexp.h:460-461 | the loop that goes over every copy |
| RegexpMatcher.Matcher.TryFewer | head/regexp.h:463-467 | the loop that gives copies back |
| RegexpMatcher.Matcher.Attempt | head/regexp.h:319-511 | failure means no choice of repetitions matches; success means loc2 ends the first that does |
| RegexpMatcher.Matcher.Step | head/regexp.h:286-317 | the leftmost start with a match, found by the fast path and by the regular search alike; anchored patterns only at the start; it runs for ever only where the first choice at the place reached does |
| RegexpMatcher.WrongFirstCharacter | head/regexp.h:296-308 | the fast path skips only places where nothing can match |
| RegexpTermination.NeverHangs | head/regexp.h:456-461 | no choice of repetitions runs for ever in a pattern whose starred references are reached only with groups that cannot be empty |
| RegexpTermination.SafeIffEnds | head/regexp.h:319-511 | the patterns that pass this check of the pattern alone are exactly those with which every attempt, at every place of every text, ends |
| RegexpTermination.ShortestHangs | head/regexp.h:456-461 | on the text that takes every run at its least, an unsafe pattern has one choice that does not fail, and it runs for ever |
| RegexpTermination.EmptyReferenceHangs | head/regexp.h:460-461 | `\(a*\)\1*` does run for ever on the empty text |
| RegexpCompile.Compiler.Compile | head/regexp.h:61-284 | emits exactly the encoding of the items the pattern is read as, or ends with exactly its error; every store lands at an index no greater than endbuf; circf, nbra and nodelim are right |
| RegexpCompile.Compiler.OneTurn | head/regexp.h:94-283 | one turn of the loop does what reading one item does |
| RegexpNotation.WrittenIsRead | head/regexp.h:61-284 | every pattern written from literals, bare or behind a backslash as each place asks, classes with ranges and negation, quantifiers, groups, references and anchors, behind any delimiter and ended by it or by a newline, is read back as exactly the items it stands for, or ends in error 50 if they do not fit and in 42 if a group is open |
| RegexpNotation.ReadIffWritten | head/regexp.h:61-284 | the accepted patterns are exactly those so written that fit and close their groups |
| RegexpNotation.TokensRead | head/regexp.h:94-283 | tokens are read back from any state in the middle, or end in error 50 |
| RegexpNotation.TokenReads | head/regexp.h:106-282 | each token reads as it says: `$` is the anchor before the end and a character elsewhere, `*` a character at the start and behind a group mark |
| RegexpNotation.ElemsRead | head/regexp.h:149-181 | the members of a class, ranges and a last dash included, read as the set they show |
| RegexpNotation.BoundsRead | head/regexp.h:223-257 | an interval reads as its bounds |
| RegexpFlaws.FlawFound | head/regexp.h:106-282 | what is wrong with a pattern at some place ends the reading there in the error for it: 11, 16, 25, 36, 42, 43, 44, 45, 46 or 49 |
| RegexpFlaws.FlawIsRefused | head/regexp.h:61-284 | the same for whole patterns, tokens with a flaw behind them |
| RegexpFlaws.EmptyPattern | head/regexp.h:77-85 | the empty pattern keeps the program there is, and is error 41 exactly if there is none and sed does not ask |
| RegexpNumbers.DigitsModulo | head/regexp.h:228-239 | of a bound only its value modulo 2^32 is seen |
| RegexpNumbers.BoundReadExactly | head/regexp.h:230-238 | a bound is read as written exactly if it is at most 255; larger ones are refused up to 2^31, and 4294967297 is read as 1 |
| RegexpPattern.BoundHeld | head/regexp.h:513-519 | an interval takes no more characters than its upper bound exactly if that is not 255 |
| RegexpPattern.OpenBound | head/regexp.h:513-519 | an interval without an upper bound takes runs of every length exactly in texts of at most its lower bound and 20000 characters |
| RegexpMeaning.AcceptedIsScoped | head/regexp.h:207-272 | accepted patterns close all groups, and refer to closed groups only exactly if no reference stands inside its own group |
| RegexpMeaning.InsideReferenceAccepted | head/regexp.h:267-272 | `\(\(\)\1\)` is accepted, its reference being inside group 1 |
| RegexpMeaning.CompileThenStep | head/regexp.h:61-317 | compiling a pattern and searching with it finds exactly the leftmost first match of what the pattern says, and ends if the pattern passes the check |
| BitmapWords.OpIsPointwise | SA/saio/bitmap.c:272-295 | the function on words is the function on each pixel |
| BitmapWords.TableHolds | SA/saio/bitmap.c:264-294 | the documented table holds for all inputs exactly if the code is not 11 |
| BitmapRows.RowForward | SA/saio/bitmap.c:140-182 | a row from left to right, shifts either way, combines each old source pixel with the old destination pixel, changes no other bit, and returns both pointers to where the row arithmetic expects them |
| BitmapRows.FinishRow | SA/saio/bitmap.c:178-180 | the store under the right edge mask completes the row and leaves what is behind it |
| BitmapRowsBack.RowBackward | SA/saio/bitmap.c:210-256 | a row from right to left combines each old source pixel with the old destination pixel, changes no other bit, and returns both pointers to where the row arithmetic expects them |
| BitmapOp.ForwardRows | SA/saio/bitmap.c:139-184 | the rows from the top down or the bottom up |
| BitmapOp.BackwardRows | SA/saio/bitmap.c:209-257 | the rows of the right-to-left case |
| BitmapOp.RightLeft | SA/saio/bitmap.c:186-257 | the right-to-left case with its own pointers, masks and strides |
| BitmapOp.ForwardSafe | SA/saio/bitmap.c:98-121 | with the order chosen, no row's source has been overwritten when it is read |
| BitmapOp.IntactSame | SA/saio/bitmap.c:98-125 | within one bitmap, rows still to be read are as they were |
| BitmapOp.Bitop | SA/saio/bitmap.c:72-259 | every pixel of the destination rectangle becomes the function of the OLD source and OLD destination pixels, all others are unchanged, for any overlap, any offsets and any width |
| BitmapOp.AllRowsBlitted | SA/saio/bitmap.c:139-184 | rows done one by one make up the rectangle |
| BitmapOp.Rectfill | SA/saio/bitmap.c:301-307 | a rectangle combined with itself |
| BitmapOp.FillPixels | SA/saio/bitmap.c:301-307 | codes 0, 15 and 10 clear, set and invert it |
| BrkptInst.SuccessorKnown | SA/dbgmon/brkpt.c:561-730 | the monitor's decoding covers every place a MIPS-I instruction can lead |
| BrkptTable.NewKeepsInv | SA/dbgmon/brkpt.c:366-391 | a breakpoint stands at the address; the invariant, all other addresses and every permanent breakpoint are kept |
| BrkptTable.NewKeepsFirm | SA/dbgmon/brkpt.c:366-391 | the stronger type wins: no temporary or permanent breakpoint becomes a weaker one |
| BrkptTable.NewExactly | SA/dbgmon/brkpt.c:366-391 | a breakpoint is set exactly at an instruction boundary where nothing is suspended and there is or can be an entry; its type becomes the stronger one, and no other changes |
| BrkptTable.SuspendFrom | SA/dbgmon/brkpt.c:735-758 | exactly the entry at the address is suspended, and remembers its type |
| BrkptTable.SuspendKeepsInv | SA/dbgmon/brkpt.c:735-758 | suspending keeps the invariant and every permanent breakpoint |
| BrkptText.InstallsOrRestores | SA/dbgmon/brkpt.c:396-444 | all breakpoints are written and the old words recorded, or a fault midway restores all text already patched, undoes what was temporary and drops the bad entry |
| BrkptText.UndoRestores | SA/dbgmon/brkpt.c:410-429 | the clean-up after a fault |
| BrkptText.RemoveRestores | SA/dbgmon/brkpt.c:457-478 | removal puts back what was recorded |
| BrkptText.InstallThenRemove | SA/dbgmon/brkpt.c:396-479 | installing and then removing is the identity on the client's text, whatever the table holds |
| BrkptMachine.InstallKeeps | SA/dbgmon/brkpt.c:396-444 | installation keeps every entry, or, after a fault, the invariant and every permanent breakpoint but the bad one |
| BrkptMachine.ContinueKeeps | SA/dbgmon/brkpt.c:341-361 | the recursion ends with the client running over its own text with all breakpoints planted, or with an error and its text untouched; permanent breakpoints survive |
| BrkptMachine.StepKeeps | SA/dbgmon/brkpt.c:186-217 | step1 ends with the client running over its own text with all breakpoints planted, or with an error and its text untouched; permanent breakpoints survive |
| BrkptMachine.StopsCover | SA/dbgmon/brkpt.c:192-214 | the addresses step1 chooses cover every way the client can go |
| BrkptMachine.SuspendedStopFails | SA/dbgmon/brkpt.c:351-357 | a branch whose next stop must be suspended to continue ends in an error, never in a run |
| BrkptMachine.StepIsComplete | SA/dbgmon/brkpt.c:186-217 | if the client is started, a breakpoint stands, and is in the text, wherever the instruction (with its delay slot) can lead other than back to itself; for the ROM, where it returns to |
| BrkptMachine.OverKeeps | SA/dbgmon/brkpt.c:247-275 | the same for step2 |
| BrkptMachine.OverIsComplete | SA/dbgmon/brkpt.c:247-275 | if step2 starts the client, a breakpoint stands, and is in the text, behind a call, and for any other instruction wherever it can lead other than back to itself; the one exception is a branch in the ROM into its own delay slot |
| BrkptMachine.StepperAfter | SA/dbgmon/brkpt.c:341-361 | continuing from a breakpoint leaves step1 as the stepping routine |
| BrkptMachine.StaysSteppingOver | SA/dbgmon/brkpt.c:247-275 | `S` goes on stepping over subroutines exactly if its first step does not start from a breakpoint |
| BrkptMachine.StepsIntoFromBreakpoint | SA/dbgmon/brkpt.c:247-275 | `S` from a permanent breakpoint on a `nop` starts the client, and leaves step1 as the stepping routine |
| BrkptRun.StoppedKeeps | SA/dbgmon/brkpt.c:451-479 | after each removal nothing is suspended, no "continue" breakpoint is left outside the ROM, and every permanent one is in force |
| BrkptRun.TemporariesLeft | SA/dbgmon/brkpt.c:466-477 | exactly which temporary breakpoints outlast a stop |
| BrkptRun.BpFaultKeeps | SA/dbgmon/brkpt.c:516-556 | handling a breakpoint keeps the invariant, and every permanent breakpoint but one that cannot be written |
| BrkptRun.NextKeeps | SA/dbgmon/brkpt.c:85-181 | every command and every trap keeps the invariant, and every permanent breakpoint it does not clear |
| BrkptRun.Run | SA/dbgmon/brkpt.c:85-361 | the invariant holds after every run |
| BrkptRun.PermSurvives | SA/dbgmon/brkpt.c:341-391 | over every run a permanent breakpoint stays until it is cleared or its address cannot be written |
| BrkptRun.TableIsSound | SA/dbgmon/brkpt.c:341-479 | over every run from the start no two entries share an address, and suspended ones were temporary or permanent |
| BrkptRun.PermStops | SA/dbgmon/brkpt.c:516-555 | a client that reaches a permanent breakpoint is left there with a prompt |
| BrkptRun.StepsOn | SA/dbgmon/brkpt.c:516-533 | a stepped client that stops where its instruction leads is stepped on with one step less, or left with a prompt at the last step or a permanent breakpoint |
| BrkptRun.StopsWhereItGoes | SA/dbgmon/brkpt.c:186-217 | a stepped client that fetches from the text with the breakpoints in it fetches its own instructions, and is stopped where they lead |
| BrkptRun.OneStep | SA/dbgmon/brkpt.c:165-217 | `s` stops such a client after exactly one instruction (and its delay slot), with a prompt |
| BrkptStart.StepRuns | SA/dbgmon/brkpt.c:186-217 | step1 starts the client if the instruction can be stepped, its stops can be written, and two entries are free or theirs already |
| BrkptStart.ContinueRuns | SA/dbgmon/brkpt.c:341-361 | continuing starts the client under the same conditions |
| BrkptStart.OverRuns | SA/dbgmon/brkpt.c:247-275 | step2 starts it if four entries are free |
| BrkptCommands.BrkSets | SA/dbgmon/brkpt.c:85-107 | `brk` succeeds exactly at an instruction boundary with an entry there or free, and then a permanent breakpoint stands there and nothing else has changed |
| BrkptCommands.UnbrkClears | SA/dbgmon/brkpt.c:138-160 | `unbrk` with a number leaves no breakpoint at that entry's address, and every other as it was |
| BrkptCommands.AllCleared | SA/dbgmon/brkpt.c:143-146 | `unbrk` alone leaves none |
| BrkptCommands.GoSets | SA/dbgmon/brkpt.c:116-133 | when `go` starts the client, a breakpoint at which it really stops is at each address given, and in the text |
| BrkptCommands.GoStops | SA/dbgmon/brkpt.c:116-133 | a client that comes to one of them is left there with a prompt |
| BrkptCommands.SetStands | SA/dbgmon/brkpt.c:85-391 | a breakpoint set by `brk` at any time in a session stands at every later time until it is cleared or cannot be written |
| BrkptCommands.StepsN | SA/dbgmon/brkpt.c:165-181 | `s n` executes n instructions: before the last trap the client runs, and after it there is a prompt where it has got to |
| BrkptCommands.StepsOver | SA/dbgmon/brkpt.c:247-275 | a client stepped over an instruction that stops behind it, or behind the call, is left with a prompt at the last step or a permanent breakpoint, and otherwise stepped on with one step less |
| BrkptCommands.ContRunsOn | SA/dbgmon/brkpt.c:341-361 | `cont` from a breakpoint is stopped at the next instruction only to be started again, all breakpoints outside the ROM being what they were |
| BrkptCommands.OwnBreak | SA/dbgmon/brkpt.c:534-539 | a break instruction of the client's own ends in a prompt, past it |
| BrkptCommands.OtherTrap | SA/dbgmon/faultasm.s:191-195 | any other trap ends in a prompt where it happened |
| BrkptRun.TextKept | SA/dbgmon/brkpt.c:396-479 | each operation leaves each word of the client's own text as the client stored it |
| BrkptRun.TextOverRun | SA/dbgmon/brkpt.c:396-479 | the same over every run |
| BrkptMonitor.Monitor.NewBrkpt | SA/dbgmon/brkpt.c:366-391 | in place, raises the type of the entry at the address or fills the first empty one, or fails as the specification does |
| BrkptMonitor.Monitor.SuspendBrkpt | SA/dbgmon/brkpt.c:735-758 | in place, suspends the entry at the address, or fails as the specification does |
| BrkptMonitor.Monitor.IsBreakpoint | SA/dbgmon/brkpt.c:624-650 | whether a breakpoint in force is at the address |
| BrkptMonitor.Monitor.LookupBptype | SA/dbgmon/brkpt.c:499-510 | the type of the entry at the address |
| BrkptMonitor.Monitor.InstallBrkpts | SA/dbgmon/brkpt.c:396-444 | in place, leaves table, text and ending as the specification of installation has them, faults included |
| BrkptMonitor.Monitor.UndoInstall | SA/dbgmon/brkpt.c:410-429 | in place, leaves table and text as the specification of the clean-up has them |
| BrkptMonitor.Monitor.RemoveBrkpts | SA/dbgmon/brkpt.c:451-479 | in place, leaves table, text and saved type as the specification of removal has them |
| BrkptMonitor.Monitor.ClearBrkpts | SA/dbgmon/brkpt.c:486-493 | every entry is empty |
| BrkptMonitor.Monitor.BpContinue | SA/dbgmon/brkpt.c:341-361 | the C recursion reaches the state and ending of the specification, and terminates |
| BrkptMonitor.Monitor.StepOnce | SA/dbgmon/brkpt.c:186-217 | step1 reaches the state and ending of the specification, and terminates |
| BrkptMonitor.Monitor.SetStops | SA/dbgmon/brkpt.c:192-214 | sets exactly the breakpoints of the specification of step1, and return_addr |
| BrkptMonitor.Monitor.StepOver | SA/dbgmon/brkpt.c:247-275 | step2 reaches the state and ending of the specification |
| BrkptMonitor.Monitor.SetStopsOver | SA/dbgmon/brkpt.c:253-272 | sets exactly the breakpoints of the specification of step2 |
| BrkptMonitor.Monitor.TakeFault | SA/dbgmon/brkpt.c:516-556 | each type of breakpoint is handled as the specification has it |
| BrkptMonitor.Monitor.AddTemporaries | SA/dbgmon/brkpt.c:123-130 | adds the temporary breakpoints of a `go` command, up to the first that fails |
| BrkptMonitor.Monitor.Obey | SA/dbgmon/brkpt.c:85-181 | each command reaches the state and ending of the specification |
| BrkptMonitor.Monitor.ClientStops | SA/dbgmon/faultasm.s:191-195 | a trap is removal followed by the handling of a breakpoint |
| ScsiPieces.CoversOnce | SA/saio/common_scsi.c:1828-1861 | pieces in order have each byte in exactly one of them |
| ScsiPieces.Cut | SA/saio/common_scsi.c:1830-1834 | only the part in the last page can miss the count alignment |
| ScsiTransfer.Unit.CutPage | SA/saio/common_scsi.c:1829-1854 | one turn: the bytes in one page, less those moved by hand behind them |
| ScsiTransfer.Unit.Fill | SA/saio/common_scsi.c:1828-1861 | entries and tail are the memory in order, no entry crosses a page, there is one for each page, the tail arises only in the last, and a split is at a page boundary with all entries used; when it is abnormal |
| ScsiTransfer.Unit.PutHead | SA/saio/common_scsi.c:1813-1822 | the head reaches exactly to the first aligned address, within its page |
| ScsiTransfer.Unit.First | SA/saio/common_scsi.c:1757-1861 | head, entries and tail of the first request partition what is left of it |
| ScsiTransfer.Unit.AddOne | SA/saio/common_scsi.c:1882-1897 | a combined request's entries are its buffer, behind those of the earlier ones |
| ScsiTransfer.Unit.CombineAll | SA/saio/common_scsi.c:1862-1899 | requests are combined exactly up to the first that fails a test or finds the command full: bytes moved by hand, no entry left, or, on an I2000, one that does not end with a page |
| ScsiTransfer.Unit.Setup | SA/saio/common_scsi.c:1756-1909 | the whole command: as many requests as pass the tests and find room, those but the last wholly in it, blocks linked as the test for contiguity says, un_bn and un_prev_secs advanced by its sectors |
| ScsiTransfer.Unit.SetupOne | SA/saio/common_scsi.c:1756-1909 | the same for a request with none behind it; nothing is left of it exactly if its pages are no more than the entries |
| ScsiTransfer.Unit.FirstLeavesRoom | SA/saio/common_scsi.c:1813-1862 | whether the first request of a command leaves room for another, by its memory alone |
| ScsiQueue.Prepare | SA/saio/common_scsi.c:1708-1720 | a request, new or requeued, goes on at the block of the first byte not yet moved |
| ScsiQueue.Start | SA/saio/common_scsi.c:1669-1751 | a command moves a non-empty part of what is left, from the block computed for it |
| ScsiQueue.Carry | SA/saio/common_scsi.c:916-973 | resubmitting remainders terminates with nothing left, the passes following one another through the buffer; every byte reaches its own place on the disk exactly if the pages of the request are no more than the entries, or its buffer starts at a multiple of a sector |
| ScsiQueue.MovedOnce | SA/saio/common_scsi.c:916-945 | every byte is moved by exactly one pass |
| ScsiQueue.SplitInMidSector | SA/saio/common_scsi.c:935-941 | a request for 17 pages from address 256, with 16 entries, does not get to its place |
| ScsiQueue.StartQueue | SA/saio/common_scsi.c:1862-1899 | whether the next request is combined with the first, told before the call; each combined request lands as far before its place as the first had been moved before, so all are in their places exactly if the first is no remainder or is not followed |
| ScsiQueue.RemainderCombined | SA/saio/common_scsi.c:1870-1881 | with 8 of 16 sectors moved, the request for sector 24 is combined with the rest, and lands at sector 16 |
| ScsiCommand.ToldAsAsked | SA/saio/common_scsi.c:2908-2951 | a device decodes the command block to exactly the transfer asked for, exactly if the count fits 16 bits and is not 0 in the short form |
| BfsPacket.NamesMatch | SA/saio/bfs.c:313 | comparing terminated names tells them apart |
| BfsPacket.AcceptedReply | SA/saio/bfs.c:295-341 | an accepted read reply answers a request for the same file and offset, and holds what that asked for |
| BfsPacket.AcceptedEnquiry | SA/saio/bfs.c:295-341 | a server whose enquiry reply is accepted has the file |
| BfsPacket.AnswerFits | SA/saio/bfs.c:28-31 | an honest answer is accepted exactly if it fits the buffer, one byte short for the longest names |
| BfsPacket.LateAnswer | SA/saio/bfs.c:295-341 | after moving the offset back, a late answer longer than asked for is accepted |
| BfsNetwork.PromptIsFirst | SA/saio/bfs.c:205-266 | fewer time-outs than BFS_MAXTRIES and then an honest answer to any copy of the request are what a transaction takes for its answer |
| BfsClient.Client.constructor | SA/saio/bfs.c:33-37 | a client that has sent nothing |
| BfsClient.Client.Transact | SA/saio/bfs.c:205-266 | sends only its request; is answered exactly if the first acceptable packet comes before the BFS_MAXTRIES-th time-out, and then returns that packet, having sent one request more than there were time-outs; gives up exactly at that time-out; accepts only answers of the pinned server |
| BfsClient.Client.Open | SA/saio/bfs.c:42-89 | succeeds exactly if the name fits and the enquiry is answered, as it is by a server with the file that answers before the last time-out; pins a server that has the file |
| BfsClient.Client.Exact | SA/saio/bfs.c:295-341 | an accepted reply is exactly the requested slice of the pinned server's file |
| BfsClient.Client.Fetch | SA/saio/bfs.c:109-114 | one request and its answer, which comes exactly if the transaction is answered, as it is by a pinned server that serves it in time |
| BfsClient.Client.ReadBlock | SA/saio/bfs.c:107-149 | one block stored behind the others; verifying finds no difference; it is answered if the pinned server serves two requests in time, or one at the end of the file |
| BfsClient.Client.Read | SA/saio/bfs.c:95-158 | the bytes stored are the slice of the single file of the pinned server, and their count is the smaller of what was asked for and what is left; nothing else is stored; it is answered if the pinned server serves, in time, the requests it may take |
| Slices.SplitReads | SA/saio/bfs.c:104-157 | however reads are split, together they get the same bytes |
| BfsClient.ReadEach | SA/saio/bfs.c:95-158 | a list of reads, all answered, stores what one read of all their counts would; all are answered if the pinned server serves, in time, the requests they may take |
| CmcIndex.AfterWraps | SA/saio/cmc.c:667 | masking wraps an index of a power-of-two ring |
| Masks.MaskIsModulo | SA/saio/cmc.c:667 | a mask one less than a power of two is the remainder |
| CmcProtocol.DoKeeps | SA/saio/cmc.c:660-694 | every single access of either side keeps the order and number of entries, and that a sleeping consumer will be woken |
| CmcProtocol.FirstInFirstOut | SA/saio/cmc.c:660-694 | under every interleaving what is taken out is what was put in, in order, none lost or doubled, never more than size-1 waiting |
| CmcProtocol.NothingLeftBehind | SA/saio/cmc.c:454-496 | no wake-up is lost: with the producer at rest, the consumer asleep and no interrupt pending, everything has been delivered |
| CmcProtocol.PutReturns | SA/saio/cmc.c:666-676 | ringput returns the number of entries as it ends, or 0 at once exactly if there was no room |
| CmcProtocol.PutToSleeper | SA/saio/cmc.c:474-475 | on an empty ring with an idle consumer it returns 1 and the interrupt is raised |
| CmcProtocol.GetAlone | SA/saio/cmc.c:682-694 | a ringget by itself takes exactly the oldest entry and changes nothing else, or nothing from an empty ring |
| CmcProtocol.SleeperEmpties | SA/saio/cmc.c:482-496 | a sleeper that is interrupted empties the ring before it sleeps again |
| CmcProtocol.Progress | SA/saio/cmc.c:660-694 | under every interleaving a consumer awake or interrupted has taken each entry after four accesses for it and for each before it |
| CmcDriver.Ring.constructor | SA/include/mipsif/if_enp.h:145-152 | an empty ring |
| CmcDriver.Ring.Empty | SA/saio/cmc.c:650-655 | whether the ring is empty |
| CmcDriver.Ring.Put | SA/saio/cmc.c:660-677 | appends a descriptor if there is room, and says how many there are |
| CmcDriver.Ring.Get | SA/saio/cmc.c:682-694 | takes the oldest descriptor, or 0 |
| CmcDriver.Scan | SA/saio/cmc.c:482-496 | hands every descriptor up to a null one on, in order, and gives back as many as there is room for |
| CmcDriver.Transmit | SA/saio/cmc.c:454-477 | moves one free descriptor to the board, which is interrupted exactly if its ring was empty |
| CmcDriver.Conserved | SA/saio/cmc.c:482-496 | with room for every descriptor none is lost or doubled |
| CmcCopy.OddByteCounts | SA/saio/cmc.c:774-778 | as many bytes are copied as asked for exactly unless that is none between odd addresses; then it is 2^32 |
| CmcCopy.CopyHalves | SA/saio/cmc.c:783-801 | sixteen bytes in halfwords in the permuted order |
| CmcCopy.CopyBytes | SA/saio/cmc.c:805-826 | sixteen bytes one at a time in the permuted order |
| CmcCopy.HwCopy | SA/saio/cmc.c:766-839 | a plain copy of that many bytes that changes nothing else, for all alignments |
| NumberText.ValueOfDigits | SA/prom/commands.c:1628-1631 | the digits printed denote the number |
| NumberText.DigitCount | SA/prom/commands.c:1628-1631 | how many digits a number takes |
| NumberParse.DigitMore | SA/saio/libc.c:447-455 | the two tests see overflow exactly when one more digit passes 2^32-1 |
| NumberParse.Atob | SA/saio/libc.c:403-464 | stores the low 32 bits of the signed number, and warns exactly if the digits exceed 2^32-1 or the number is the least signed one |
| NumberParse.ReadDigits | SA/saio/libc.c:447-456 | the digit loop leaves the value modulo 2^32, and its flag exactly if the value does not fit |
| NumberParse.ReadStart | SA/saio/libc.c:417-445 | white space, any number of minus signs, and the base told by 0, 0x or 0b |
| NumberNotation.DigitIsWritten | SA/saio/libc.c:469-489 | a character is read as the digit it is written for, in either case, and as a digit of a base only if it stands for one |
| NumberNotation.WrittenIsRead | SA/saio/libc.c:403-464 | a number written in any of the four bases, in either case, behind any white space and any number of minus signs, is read as its digits say, up to the first character that is no digit of the base |
| NumberNotation.Spell | SA/saio/libc.c:403-464 | every string is a number so written, with something behind it |
| NumberNotation.DecimalReadBack | SA/saio/libc.c:403-464 | decimals behind spaces and a sign are read to their end |
| NumberNotation.MarkedReadBack | SA/saio/libc.c:403-464 | zero-filled numbers behind 0x, 0 or 0b are read to their end |
| NumberPrint.Btoh | SA/dbgmon/rdebug.c:548-573 | prints 0x and the hexadecimal digits without leading zeros |
| NumberPrint.BtohReadBack | SA/dbgmon/rdebug.c:548-573 | what btoh prints, atob reads back, without a warning |
| NumberPrint.Dprint | SA/prom/commands.c:1563-1649 | fill, sign and digits of the magnitude |
| NumberPrint.PrintedSays | SA/prom/commands.c:1563-1649 | in every numeric base: fill up to the width, a minus sign exactly for negative signed numbers, and digits without leading zeros that with the sign denote the number |
| NumberPrint.PutDigits | SA/prom/commands.c:1628-1631 | the digit loop fits its buffer |
| NumberPrint.PutFill | SA/prom/commands.c:1634-1639 | the fill |
| NumberPrint.ExactlyBc | SA/prom/commands.c:1509-1556 | printed to the width bc gives, a value of that many bytes takes exactly that many characters, in every numeric base |
| NumberPrint.DecimalsReadBack | SA/prom/commands.c:1563-1649 | every 32-bit value printed in signed or unsigned decimal is read back; only the least signed one draws a warning |
| NumberPrint.FilledReadBack | SA/prom/commands.c:1563-1649 | every 32-bit value printed zero-filled in hexadecimal, octal or binary, behind the mark of the base, is read back |
| SrecordLoad.Loader.Get | SA/prom/commands.c:1771-1773 | getc, with end of file |
| SrecordLoad.Loader.GetCsum | SA/prom/commands.c:1777-1790 | a byte in text or binary, added to the checksum |
| SrecordLoad.Loader.GetAddress | SA/prom/commands.c:1871-1876 | four bytes give an address, the first the most significant |
| SrecordLoad.Loader.SeekS | SA/prom/commands.c:1835-1848 | skips to the next S |
| SrecordLoad.Loader.StoreData | SA/prom/commands.c:1877-1878 | data to memory at rising addresses |
| SrecordLoad.Loader.GetBody | SA/prom/commands.c:1861-1897 | what follows the length changes memory and client_pc as the specification has it for each type |
| SrecordLoad.Loader.Acknowledge | SA/prom/commands.c:1898-1905 | the reply is by whether the checksum received is the complement of the sum |
| SrecordLoad.Loader.GetRecord | SA/prom/commands.c:1834-1906 | one record changes the state, and ends, as the specification has it, every error included |
| SrecordLoad.Loader.Sload | SA/prom/commands.c:1795-1913 | the whole load does what the specification says, on every input, and ends |
| SrecordImage.OrByte | SA/prom/commands.c:1873-1874 | shifting and or-ing in a byte |
| SrecordImage.StoredAt | SA/prom/commands.c:1877-1878 | which byte is at each address after a data record |
| SrecordImage.RecordRead | SA/prom/commands.c:1834-1906 | a record written in text or binary, in either case of digits, is read as it was written, and answered ACK exactly if its checksum is right |
| SrecordImage.LoadsImage | SA/prom/commands.c:1834-1906 | loading an image written as records, with anything but an S between them, writes exactly that image, sets client_pc, and answers every record rightly |
| SrecordImage.RepliesAt | SA/prom/commands.c:1898-1905 | each reply is ACK or NAK by its checksum |
| SrecordImage.WrittenImageLoads | SA/prom/commands.c:1834-1906 | every image can be written so, and is then loaded with every record acknowledged |
| SrecordEndings.LengthRefusedIff | SA/prom/commands.c:1768-1775 | exactly which two characters make a length that is refused |
| SrecordEndings.RecordEnds | SA/prom/commands.c:1834-1897 | how a record ends is told by the first S, the character behind it and the two of the length; one not read to its end changes neither memory nor client_pc nor replies |
| SrecordEndings.OtherType | SA/prom/commands.c:1892-1905 | a record of an unknown type stores nothing, and the byte behind its length is taken for its checksum |
| SrecordEndings.LoadBreaks | SA/prom/commands.c:1834-1860 | no further S, a first record that is no S0, or a refused length end the load, and memory then holds exactly the image of the records before, each with its reply |
| DvhFile.Strncmp | SA/saio/libc.c:133-142 | 0 exactly if the strings agree as far as n bytes or their end |
| DvhFile.ClippedRight | SA/saio/dvh.c:119-126 | a read is clipped at the end of the file exactly if offset and count do not pass the largest integer |
| DvhFile.InOneBlock | SA/saio/dvh.c:132-151 | a stretch of the file within one block is that part of the device's block |
| DvhFile.Iob.constructor | SA/saio/dvh.c:86-87 | no block is in the buffer, and no file is open |
| DvhFile.Iob.Open | SA/saio/dvh.c:64-109 | finds exactly the first entry in use with the name |
| DvhFile.Iob.Cache | SA/saio/dvh.c:132-144 | the buffer holds the block i_bn names |
| DvhFile.Iob.ReadSome | SA/saio/dvh.c:128-155 | one turn of the loop stores the next bytes of the file, as far as the block goes |
| DvhFile.Iob.Read | SA/saio/dvh.c:114-158 | exactly the bytes of the file from the offset, clipped at its length, whatever was read before |
| DvhFile.ReadEach | SA/saio/dvh.c:114-158 | a list of reads stores what one read of all their counts would |

## Left out

- RegexpCompile.Compiler.Compile: an interval behind a group mark, a back-reference or another interval ends in the outcome `Unspecified`; the language defines intervals for one-character expressions only, and `advance` has no case for such code.
- RegexpMeaning.CompileThenStep: patterns with a reference inside its own group are excluded; the check at head/regexp.h:268 lets them through, and the slot such a reference reads is left from an earlier match.
- RegexpCompile.Compiler.OneTurn: bytes behind the NUL of a pattern without its delimiter are not part of the model.
- BitmapOp.Bitop: coordinates and word indices do not overflow, rectangles lie in their bitmaps, and two bitmaps do not share memory; the source checks none of this.
- BitmapOp.Rectfill: `mover` and `poffset` are plain sums and are not modelled.
- BrkptInst.SuccessorKnown: MIPS-II branch-likely instructions are not in SA/dbgmon/inst.h, and not in the model; a conditional branch of the BCOND kind is told by the low bit of its rt field.
- BrkptRun.StoppedKeeps: entries in the ROM keep their types, as the code skips them.
- BrkptRun.TextOverRun: commands that change the client's memory or registers are the single event `Edit`; the words that can be read or written do not change while the client runs.
- BrkptRun.OneStep: a client whose own instructions include the breakpoint word where it stands, and one whose next stop is in the ROM, where no breakpoint can be written, are left out.
- BrkptMonitor.Monitor.Obey: `brk` and `unbrk` with several arguments are so many commands, and arguments have been read; messages, the remote debugger's way in through bp_nofault, and disassembly are left out.
- ScsiTransfer.Unit.Setup: for queues of two or more, counts need no stricter alignment than start addresses, as in SA/saio/dkis.c:79-82, where the masks are equal; bounce buffers for unaligned requests, the cache address in scsi_bufaddr, physical addresses and the controller's own operations are left out; un_sectsize is 512.
- ScsiQueue.Carry: one request in the queue (`StartQueue` has a queue, and one command), no device errors, no retries; sorting of queues is left out.
- ScsiCommand.ToldAsAsked: tape commands and the other SCSI commands are left out.
- BfsClient.Client.Read: `_io_abort` ends the model's run; the offset is not moved back between reads; servers do not change files; checksums of the network below are trusted.
- BfsClient.Client.Transact: saving and restoring the timer of an outer caller is left out; a time-out is an event.
- CmcDriver.Scan: what enp_read does with a packet, trailer encapsulation included, is left out.
- CmcDriver.Transmit: copying the packet to the board's memory and setting its length are left out.
- CmcProtocol.FirstInFirstOut: indices are unbounded; the source keeps them in shorts, which hold those of rings of at most 2^14 entries.
- CmcCopy.HwCopy: stretches that overlap, and addresses that wrap at 2^32, are left out; the driver copies between host and board memory.
- NumberPrint.Dprint: the character base CHR is left out.
- NumberParse.Atob: characters beyond 7 bits are no digits, letters or spaces.
- SrecordLoad.Loader.Sload: opening the line, its modes and the messages are left out.
- DvhFile.Iob.Read: reads whose offset and count pass the largest integer, which are not clipped (`ClippedRight`), and reads that the device refuses; the code then leaves i_bn naming a block the buffer does not hold.
- `doscsicmd`, `is_vh`, `vh_mapfstype`, `inet_*`, `strncat`, `mapreg`, `fms`: short routines that would add easy members only.
- Everything else in the repository: device registers, kernel headers, commands and user interface.
