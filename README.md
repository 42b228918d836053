# jdebugger in Dafny

A model of the core of jdebugger, a small x86-64 debugger built on ptrace.
The traced child is reduced to what the debugger can see of it through
ptrace: a memory of 64-bit words keyed by address, and the 27-word register
snapshot that PTRACE_GETREGS and PTRACE_SETREGS move as a whole. Four
components of the debugger are modelled on top of that state.

- **Software breakpoints** (`Breakpoints`, over `Words` and `Target`). A
  `Breakpoint` is a class with an address, an enabled flag and a saved
  byte. `Enable` saves the low byte of the word at the address and writes
  the word back with `int3` (0xCC) as its low byte. `Disable` re-reads the
  word and puts the saved byte back. The laws of the two are proved over
  `bv64`, including:
  - only the low byte changes;
  - nothing else in memory changes;
  - enable followed by disable restores the memory;
  - the hazard of enabling twice.
- **The register descriptor table** (`Registers`). It holds the `reg`
  enumerators, `n_registers` and the 27 `{identity, DWARF number, name}`
  entries, with lemmas about the table:
  - its size;
  - every register appears exactly once, at the slot of the kernel's
    `user_regs_struct` layout;
  - the names are distinct;
  - the DWARF numbers are distinct except for the shared -1;
  - `rflags` is named "eflags".
- **The register file** (`Search`, `RegisterLookup`, `RegisterFile`). These
  are the `std::find_if` searches of the table by identity, name and DWARF
  number, with the reads and writes of a single register through the whole
  snapshot. Proved laws include:
  - read-after-write;
  - writes leave other registers alone;
  - name and DWARF round trips;
  - DWARF -1 resolves to `orig_rax`, so `rip` cannot be reached by DWARF
    number.
- **Commands and the session** (`Text`, `Hex`, `Commands`, `CommandLaws`,
  `Session`). The command-line side consists of:
  - `split` with `std::getline` semantics;
  - `is_prefix`;
  - the first-match dispatch chain of `handle_command`;
  - the "drop two characters, parse hex" argument rule.

  The `debugger` class holds the breakpoint table and the `_quit` flag, and
  `run` is the loop over input lines. `handle_command` is modelled in two
  halves: `ParseCommand` decodes a line into a `Command` or an error, and
  `Execute` carries the command out. No branch of the source has an effect
  before its last point of failure, so splitting it this way changes
  nothing.

`Breakpoint.IsEnabled` and `Breakpoint.GetAddress` read the fields
`enabled` and `addr`. The address is a `const`, so no method can change it.

In these places the code behaves in ways a user may not expect; the model
follows the code:
- "continue" and "delete" are not accepted. Each is longer than the
  canonical token ("cont", "del") that `is_prefix` compares against.
- The empty token (a line starting with a space) is a prefix of "cont" and
  continues the child.
- `set_breakpoint_at_address` always creates a new breakpoint and
  overwrites any entry at the address, without disabling the old one.
- A conversion failure is an uncaught C++ exception. It ends the program
  rather than being reported: `Run` stops with `Aborted`.

## Model

| member | source | states |
|---|---|---|
| Registers.Entry | src/registers.h:26-54 | Entry i of the table; no display name contains a space |
| Registers.TableSize | src/registers.h:18-26 | the table has n_registers = 27 entries |
| Registers.SlotHoldsRegister | src/registers.h:27-53 | every enumerator sits at its slot in the reference user_regs_struct layout (r15 at 0, rax at 10, rip at 16, gs at 26) |
| Registers.PositionIsSlot | src/registers.h:27-53 | the register at each table position has that position as its slot |
| Registers.TableMatchesLayout | src/registers.h:27-53 | table and reference layout agree in both directions |
| Registers.EachRegisterOnce | src/registers.h:7-53 | every reg enumerator appears in exactly one entry |
| Registers.NamesDistinct | src/registers.h:27-53 | display names are pairwise distinct |
| Registers.DwarfNumbersDistinctExceptMinusOne | src/registers.h:27-53 | DWARF numbers are pairwise distinct except -1, shared by orig_rax (entry 15) and rip (entry 16) |
| Registers.MinusOneEntries | src/registers.h:42-43 | only entries 15 and 16 carry DWARF number -1 |
| Registers.FlagsNamedEflags | src/registers.h:45 | rflags is displayed as "eflags" and no entry is named "rflags" |
| Registers.NamesHaveNoSpace | src/registers.h:27-53 | no display name contains a space, so each is one command token |
| Search.FindFirst | src/debugger.cpp:75-76 | find_if: the first index satisfying the predicate, or the end when none does; nothing before it satisfies it |
| RegisterLookup.FindByReg | src/debugger.cpp:75-76 | the identity search stops at the register's slot, never at the end |
| RegisterLookup.FindByNameSucceeds | src/debugger.cpp:115-116 | a name in the table is found before the end iterator |
| RegisterLookup.FindByDwarfSucceeds | src/debugger.cpp:101-102 | a DWARF number in the table is found before the end iterator |
| RegisterLookup.SlotOf | src/debugger.cpp:75-82 | the snapshot index used for r is a valid slot whose descriptor is r |
| RegisterLookup.SlotOfPosition | src/debugger.cpp:75-82 | the search for the register at position i stops at i |
| RegisterLookup.RegisterName | src/debugger.cpp:107-112 | get_register_name returns the name on r's own entry |
| RegisterLookup.RegisterFromName | src/debugger.cpp:114-119 | get_register_from_name returns the first entry with that name; an absent name is a precondition (end-iterator dereference) |
| RegisterLookup.RegisterFromDwarf | src/debugger.cpp:100-102 | the DWARF search returns the first entry with that number; an absent number is a precondition |
| RegisterFile.SlotOfInjective | src/debugger.cpp:75-82 | distinct registers use distinct snapshot words, and conversely |
| RegisterFile.NameRoundTrip | src/debugger.cpp:107-119 | name lookup and get_register_name invert each other, both directions |
| RegisterFile.DwarfRoundTrip | src/debugger.cpp:100-105 | looking a register up by its own DWARF number (not -1) returns it |
| RegisterFile.DwarfMinusOneIsOrigRax | src/debugger.cpp:100-102 | DWARF -1 resolves to orig_rax, the first entry carrying it |
| RegisterFile.RipUnreachableByDwarf | src/debugger.cpp:100-105 | no DWARF number resolves to rip |
| RegisterFile.ReadAfterWrite | src/debugger.cpp:71-98 | set_register_value then get_register_value returns the value written |
| RegisterFile.WriteKeepsOthers | src/debugger.cpp:71-98 | writing one register leaves every other register's value unchanged |
| RegisterFile.WriteReadValueIsIdentity | src/debugger.cpp:71-98 | writing back the value just read leaves the snapshot unchanged |
| RegisterFile.SnapshotDeterminedByRegisters | src/debugger.cpp:82 | two snapshots that agree on every register are equal: each word belongs to one register |
| RegisterFile.DwarfReadIsRegisterRead | src/debugger.cpp:100-105 | reading by a register's own DWARF number reads the same word as reading it by identity |
| Words.WithLowByte | src/breakpoint.cpp:13 | (data & ~0xFF) or b has low byte b and the same bits 8..63 as data |
| Words.WordFromParts | src/breakpoint.cpp:21 | a word is determined by its low byte and bits 8..63 |
| Words.WithOwnLowByte | src/breakpoint.cpp:21 | putting a word's own low byte back leaves it unchanged |
| Words.WithLowByteTwice | src/breakpoint.cpp:13-21 | only the last low-byte replacement counts |
| Target.Poke | src/breakpoint.cpp:14 | POKEDATA writes only the given mapped address, and the mapped addresses stay the same |
| Target.Tracee.PokeData | src/breakpoint.cpp:14 | the new memory is Poke of the old memory, and the registers are unchanged |
| Target.Tracee.PeekData | src/breakpoint.cpp:10 | PEEKDATA returns the word at a mapped address and -1 (all bits set) at an unmapped one |
| Target.Tracee.ContinueAndWait | src/debugger.cpp:161-166 | after the child runs, the snapshot still has 27 words |
| Target.Tracee.SetRegs | src/debugger.cpp:97 | SETREGS replaces the whole snapshot and leaves memory unchanged |
| Breakpoints.Breakpoint.constructor | src/breakpoint.cpp:5-7 | a new breakpoint is disabled, with saved byte 0 and the given pid and address |
| Breakpoints.Breakpoint.IsEnabled | src/breakpoint.cpp:27-29 | reports the enabled flag |
| Breakpoints.Breakpoint.GetAddress | src/breakpoint.cpp:31-33 | reports the address the breakpoint was made for |
| Breakpoints.Breakpoint.Enable | src/breakpoint.cpp:9-17 | is_enabled holds afterwards; saved byte = old low byte at addr; the word at addr gets low byte 0xCC; registers unchanged |
| Breakpoints.Breakpoint.Disable | src/breakpoint.cpp:19-25 | is_enabled is false afterwards; the word at addr gets the saved byte as its low byte, over the word re-read; saved byte and registers unchanged |
| Breakpoints.EnablePatchesOnlyLowByte | src/breakpoint.cpp:12-14 | after enable the word at addr has low byte 0xCC and its old bits 8..63; every other address is unchanged |
| Breakpoints.EnableThenDisableRestores | src/breakpoint.cpp:9-25 | enable then disable with nothing in between restores the whole memory exactly |
| Breakpoints.EnableTwiceLeavesTrap | src/breakpoint.cpp:10-13 | enabling twice saves 0xCC, so a later disable leaves 0xCC in memory |
| Breakpoints.DisableBeforeEnableWritesZero | src/breakpoint.cpp:19-22 | disable before any enable writes the value-initialised 0 as the low byte |
| Breakpoints.EnableDisable | src/breakpoint.cpp:9-25 | on a Breakpoint object, Enable then Disable leaves memory and registers as they were |
| Text.Tokens | src/debugger.cpp:16-26 | the tokens getline extracts contain no delimiter; an empty line has none |
| Text.PiecesAvoidDelimiter | src/debugger.cpp:16-26 | no piece between delimiters contains the delimiter |
| Text.PiecesCount | src/debugger.cpp:16-26 | there is one more piece than delimiters |
| Text.LastPieceEmpty | src/debugger.cpp:16-26 | the last piece is empty iff the string is empty or ends with the delimiter |
| Text.JoinPieces | src/debugger.cpp:16-26 | joining the pieces gives the string back |
| Text.PiecesJoin | src/debugger.cpp:16-26 | splitting a join of delimiter-free pieces gives the pieces back |
| Text.TokensOfJoin | src/debugger.cpp:16-26 | split of delimiter-free tokens joined by the delimiter (last one non-empty) gives those tokens |
| Text.TokensSpec | src/debugger.cpp:16-26 | split's tokens contain no delimiter; their count is the number of delimiters, plus one unless the line ends with one; empty line iff no tokens; joined back they give the line less a trailing delimiter |
| Text.SplitAdjacentDelimiters | src/debugger.cpp:21-23 | two adjacent spaces give an empty token between them |
| Text.SplitTrailingDelimiter | src/debugger.cpp:21-23 | a trailing space gives no empty last token |
| Text.Split | src/debugger.cpp:16-26 | the getline loop returns exactly Tokens of the line |
| Text.IsPrefix | src/debugger.cpp:28-34 | false when s is longer than of, otherwise true iff s equals the start of of (so "" is a prefix of everything) |
| Hex.HexValueOfToHex | src/debugger.cpp:150 | the value of the hex digits printed for n is n |
| Hex.ParseHex | src/debugger.cpp:150 | invalid_argument iff the string does not start with a hex digit; a result never exceeds the type's maximum |
| Hex.TrailingTextIgnored | src/debugger.cpp:150 | text after the run of hex digits does not change the result |
| Hex.ParseToHex | src/debugger.cpp:150 | parsing the hex digits of n gives n when it fits |
| Hex.ParseDigits | src/debugger.cpp:150 | a whole run of hex digits in either case parses to its value when it fits and throws out_of_range when it does not |
| Hex.ParseToHexTooBig | src/debugger.cpp:150 | parsing the hex digits of n throws out_of_range when n exceeds the maximum |
| Hex.HexValueLeadingZero | src/debugger.cpp:150 | a zero in front of hex digits does not change their value |
| Hex.LeadingZeroIgnored | src/debugger.cpp:150 | a leading zero followed by a hex digit changes neither the value nor the error |
| Commands.Route | src/debugger.cpp:137-158 | the empty token continues; no token longer than "register" reaches a branch |
| Commands.HexArgument | src/debugger.cpp:149-150 | a token shorter than two characters throws out_of_range; otherwise the result is the hex conversion of the token less its first two characters, with invalid_argument and out_of_range as their command errors, in both directions; a result never exceeds the maximum |
| Commands.RegisterCommand | src/debugger.cpp:139-147 | every command it yields is a register command; it never reports an unknown command; a subcommand that is none of dump, read, write does nothing, and only then; a write goes to the register named by the third token |
| Commands.Dispatch | src/debugger.cpp:134-158 | no tokens is a missing argument; a decoded command belongs to the branch the first token routes to; "Unknown command" iff the first token routes nowhere |
| Commands.ParseCommand | src/debugger.cpp:133-158 | an empty line is a missing argument; a decoded command belongs to the branch the line's first token routes to |
| CommandLaws.RouteByPrefix | src/debugger.cpp:137-158 | exactly which first tokens reach each branch: non-empty prefixes of register, break, del, quit; any prefix of cont, the empty one included; everything else is unknown |
| CommandLaws.RouteExamples | src/debugger.cpp:137-158 | "c" and "cont" continue but "continue" is unknown; "d" and "del" delete but "delete" is unknown; "b" breaks; "q" quits |
| CommandLaws.ContinueSpelledOutUnknown | src/debugger.cpp:137-157 | the line "continue" is an unknown command |
| CommandLaws.DeleteSpelledOutUnknown | src/debugger.cpp:151-157 | the line "delete 0x10" is an unknown command |
| CommandLaws.PrefixCharactersIgnored | src/debugger.cpp:149 | the first two characters of an argument are dropped whatever they are |
| CommandLaws.HexArgumentRoundTrip | src/debugger.cpp:149-150 | "0x" followed by the hex digits of n decodes to n when n fits |
| CommandLaws.HexArgumentTooBig | src/debugger.cpp:149-150 | "0x" followed by the hex digits of n is out of range when n does not fit |
| CommandLaws.QuitLetter | src/debugger.cpp:154-155 | the line "q" decodes to quit |
| CommandLaws.BreakShortArgumentThrows | src/debugger.cpp:148-150 | "b 1" routes to break, and taking the text after "0x" of the one-character argument throws an exception nothing catches |
| CommandLaws.BreakWithoutPrefixMisparses | src/debugger.cpp:149-150 | "break 400100" sets a breakpoint at 0x100 |
| CommandLaws.ParseLeadingZero | src/debugger.cpp:150 | the digits "0100" read as 0x100 |
| CommandLaws.TwoTokens | src/debugger.cpp:134 | a line of two space-free tokens splits into those two |
| CommandLaws.ThreeTokens | src/debugger.cpp:134 | a line of three space-free tokens splits into those three |
| CommandLaws.FourTokens | src/debugger.cpp:134 | a line of four space-free tokens splits into those four |
| CommandLaws.BreakAndDeleteLines | src/debugger.cpp:148-153 | any spelling of break (del) followed by "0x" and an address up to LONG_MAX sets (deletes) a breakpoint at that address |
| CommandLaws.TableNameIsToken | src/debugger.cpp:143 | a register name from the table is one non-empty token |
| CommandLaws.BreakLine | src/debugger.cpp:148-150 | a line whose tokens route to break with a well-formed address argument sets a breakpoint at that address |
| CommandLaws.WriteLine | src/debugger.cpp:139-146 | a line with tokens register, write, a known name and a well-formed value decodes to a write of that value |
| CommandLaws.RegisterDispatch | src/debugger.cpp:139 | a line whose first token is "register" goes to the register branch |
| CommandLaws.ReadSubcommand | src/debugger.cpp:142-143 | "register read" with a known name reads that register |
| CommandLaws.WriteSubcommand | src/debugger.cpp:144-146 | "register write" with a known name and a well-formed value writes that value |
| CommandLaws.RegisterReadArgs | src/debugger.cpp:142-143 | the tokens register, read, name decode to a read of that register |
| CommandLaws.RegisterReadLine | src/debugger.cpp:142-143 | the line "register read name" decodes to a read of that register |
| CommandLaws.RegisterWriteLine | src/debugger.cpp:144-146 | "register write name 0xhex" decodes to a write of that 64-bit value to that register, for every table name |
| Session.DumpPrefixShowsSnapshot | src/debugger.cpp:121-131 | row i of the dump is descriptor i's name with snapshot word i |
| Session.DumpPrefixGrows | src/debugger.cpp:122-130 | each pass of the loop appends the row of the next descriptor |
| Session.DumpRowsShowSnapshot | src/debugger.cpp:121-131 | the dump has 27 rows, in snapshot order, each with its descriptor's name |
| Session.LinesHandled | src/debugger.cpp:42-50 | the loop handles at least up to line k and never beyond the input |
| Session.LinesHandledStopsAtFirstStop | src/debugger.cpp:42-50 | the loop handles lines up to and including the first stopping line, and no earlier line stops it |
| Session.QuitBoundsSession | src/debugger.cpp:47-49 | no line after a quit line is handled |
| Session.AllLinesHandled | src/debugger.cpp:42-50 | without stopping lines, every input line is handled |
| Session.Session | src/debugger.cpp:41-50 | the loop, with the quit test and the throw test as parameters, handles from line k onward and never beyond the input |
| Session.SessionHandled | src/debugger.cpp:41-50 | that loop handles exactly LinesHandled of the input when a line stops it iff it quits or throws |
| Session.SessionFlag | src/debugger.cpp:41-50 | the quit flag after the loop is set iff it was set before or one of the handled lines quits |
| Session.CommandSession | src/debugger.cpp:41-50 | for the debugger's own commands: lines handled equal LinesHandled, and the flag is set iff it was or a handled line is `quit` |
| Session.SessionLast | src/debugger.cpp:41-50 | the loop stops before the end only right after a line that threw or left the flag set, and the final flag comes from the last line (or was set before a one-line run) |
| Session.RunEnding | src/debugger.cpp:36-51 | Quitted iff the flag ends set after at least one line that did not throw, and (from a clear flag) iff the flag ends set; Aborted iff the last handled line threw, carrying its error; EndOfInput only after every line; flag set iff it was or a handled line is `quit` |
| Session.QuitEndsSession | src/debugger.cpp:42-50 | in the session "continue", "q", "cont" the unknown command does not stop the loop, the quit line does, and the last line is never handled |
| Session.FindDescriptor | src/debugger.cpp:75-76 | the identity search returns the slot whose descriptor is r |
| Session.Debugger.constructor | src/debugger.cpp:13-14 | quit flag clear, breakpoint table empty |
| Session.Debugger.SetBreakpointAtAddress | src/debugger.cpp:53-58 | a fresh enabled breakpoint replaces the entry at a, other keys unchanged; memory patched as by enable |
| Session.Debugger.DeleteBreakpointAtAddress | src/debugger.cpp:60-69 | found iff a is a key; a found breakpoint is disabled in place and memory restored from its saved byte; otherwise memory unchanged |
| Session.Debugger.SetThenDelete | src/debugger.cpp:53-69 | set then delete at one address leaves memory and registers as they were |
| Session.Debugger.GetRegisterValue | src/debugger.cpp:71-83 | the value is r's word in the snapshot |
| Session.Debugger.SetRegisterValue | src/debugger.cpp:85-98 | the snapshot becomes WithRegister of the old one; memory unchanged |
| Session.Debugger.GetRegisterValueFromDwarfRegister | src/debugger.cpp:100-105 | the value of the first register with DWARF number n |
| Session.Debugger.DumpRegisters | src/debugger.cpp:121-131 | the loop produces exactly DumpRows of the snapshot |
| Session.Debugger.ContinueExecution | src/debugger.cpp:161-167 | the child may change anything; the snapshot keeps 27 words |
| Session.Debugger.Quit | src/debugger.cpp:169-171 | sets the quit flag, breakpoint table unchanged |
| Session.Debugger.HandleCommand | src/debugger.cpp:133-159 | a line that fails to decode changes nothing (no breakpoint object either) and reports its error; a decoded line performs exactly its command and changes no breakpoint object except the one a del finds; afterwards the quit flag is set iff it was set before or the line decodes to quit |
| Session.Debugger.Execute | src/debugger.cpp:137-158 | each command changes only what its branch changes, with the effect stated per command; the only existing breakpoint object it may change is the one a del finds |
| Session.Debugger.HandleWriteLine | src/debugger.cpp:144-146 | a line decoding to a register write updates that register's word; memory, the breakpoint table and the quit flag are unchanged |
| Session.Debugger.HandleReadLine | src/debugger.cpp:142-143 | a line decoding to a register read reports that register's value; registers, memory, the breakpoint table and the quit flag are unchanged |
| Session.Debugger.WriteThenRead | src/debugger.cpp:142-146 | "register write name 0xhex" then "register read name" reads back the value written |
| Session.Debugger.HandleBreakLine | src/debugger.cpp:148-150 | a line decoding to break stores an enabled breakpoint at the address that saved its low byte, other entries unchanged; the word is patched; registers and the quit flag are unchanged |
| Session.Debugger.HandleDeleteLine | src/debugger.cpp:151-153 | a line decoding to del at a breakpoint disables it and puts the saved byte back; the table, registers and the quit flag are unchanged |
| Session.Debugger.BreakThenDelete | src/debugger.cpp:148-153 | "break 0xaddr" then "del 0xaddr" leaves the child's memory exactly as it was |
| Session.Debugger.BreakReadDelete | src/debugger.cpp:142-153 | "break 0xaddr", a register read, then "del 0xaddr" leaves the child's memory exactly as it was |
| Session.Debugger.HandleLine | src/debugger.cpp:43-49 | the loop stops after a line iff it set quit or threw |
| Session.Debugger.HandleNext | src/debugger.cpp:42-49 | the rest of the session from line k is this line's effect and then, unless the loop stops here, the session from line k + 1 |
| Session.Debugger.ReadEvalLoop | src/debugger.cpp:41-50 | the lines handled and the final flag are those of the session from line 0; the outcome is its ending |
| Session.Debugger.Run | src/debugger.cpp:36-51 | lines handled are LinesHandled of the input; the final quit flag is set iff it was set before or a handled line is `quit`; Quitted iff the flag ends set after at least one line that did not throw, and (from a clear flag) iff the flag ends set; Aborted iff the last handled line threw, carrying its error; EndOfInput only after every line |

## Left out

- The ptrace and waitpid calls are not modelled as system calls. PEEKDATA,
  POKEDATA, GETREGS and SETREGS are reads and writes of `Tracee.memory` and
  `Tracee.regs`.
  - PEEKDATA on an unmapped address returns -1 (all bits set), which the
    source never checks.
  - POKEDATA there changes nothing.
  - Words at nearby addresses are independent in the model. Real words that
    overlap byte-wise are not.
- The `waitpid` at the start of `run` (src/debugger.cpp:39) is not
  modelled. The loop starts with the child already stopped.
- src/main.cpp (fork, exec, PTRACE_TRACEME, personality, the file check) is
  not part of this model.
- The linenoise line editor and its history. The input is a given sequence
  of lines.
- `std::cout` and `std::cerr` output. Commands return an `Output` value
  instead of printing, so the hex and decimal formatting, the zero padding
  of `dump_registers` and the sticky `std::hex` flag are not modelled.
- The `reinterpret_cast` over `user_regs_struct`. It is indexing into the
  27-word snapshot.
- Commands.HexArgument: a subset of `std::stol` / `std::stoull` is modelled,
  namely the longest run of hex digits at the front, the invalid_argument
  and out_of_range exceptions, and LONG_MAX / ULLONG_MAX as maxima. Leading
  whitespace, a sign, and a re-accepted "0x" after the two dropped
  characters are not.
- Hex.ParseHex: the same subset. A "0x" at the front is not skipped, so
  "0x10" reads as 0 here, where `std::stol` reads 16.
- Undefined behaviour is modelled as an error that changes nothing, after
  which the loop continues. This covers `args[i]` past the end of the
  tokens (`MissingArgument`) and an unknown register name
  (`UnknownRegister`).
  - RegisterLookup.RegisterFromName: an absent name is a precondition, since
    the source dereferences the end iterator.
  - RegisterLookup.RegisterFromDwarf and
    Session.Debugger.GetRegisterValueFromDwarfRegister: the same, for an
    absent DWARF number.
- Session.Debugger.ContinueExecution: states only that the snapshot keeps
  27 words. What the child does while it runs is not modelled, so its
  memory and registers become arbitrary.
- Target.Tracee.ContinueAndWait: the same as ContinueExecution, for the
  same reason.
- `_breakpoints[addr] = bp` copies a value object into the map. The model
  stores a fresh `Breakpoint` object per set instead, which behaves the same
  because no two keys share one.
- `_prog_name` is kept as `progName` and never read, as in the source.
