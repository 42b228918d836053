/**
 * The `debugger` class of src/debugger.cpp: the command loop over the
 * traced child, its breakpoint table, and the register operations built on
 * the whole-snapshot ptrace requests.
 */
module Session {
  import opened Wrappers
  import opened Search
  import opened Text
  import opened Hex
  import opened Registers
  import opened RegisterLookup
  import opened RegisterFile
  import opened Words
  import opened Target
  import opened Breakpoints
  import opened Commands
  import opened CommandLaws

  /** What a handled command reports on standard output. */
  datatype Output =
    | Nothing
      /** `dump_registers`: one row per descriptor, name and value. */
    | RegisterRows(rows: seq<(string, Word)>)
      /** `register read`: the value read. */
    | RegisterRead(value: Word)
    | BreakpointSet(addr: Address)
    | BreakpointDeleted(addr: Address)
    | BreakpointNotFound(addr: Address)

  /** How the command loop ends. */
  datatype Outcome =
      /** linenoise returned null: no more input lines. */
    | EndOfInput
      /** The `_quit` flag was set. */
    | Quitted
      /** A conversion threw and nothing caught it, which terminates the program. */
    | Aborted(error: CommandError)

  /** The row `dump_registers` prints for descriptor `i`: its name and its register's value. */
  function DumpRow(regs: seq<Word>, i: nat): (string, Word)
    requires |regs| == NRegisters && i < NRegisters
  {
    (Descriptors[i].name, RegisterValue(regs, Descriptors[i].r))
  }

  /** The first `n` rows `dump_registers` prints, in table order. */
  function DumpPrefix(regs: seq<Word>, n: nat): (rows: seq<(string, Word)>)
    requires |regs| == NRegisters && n <= NRegisters
  {
    seq(n, i requires 0 <= i < n => DumpRow(regs, i))
  }

  /** All the rows `dump_registers` prints. */
  function DumpRows(regs: seq<Word>): (rows: seq<(string, Word)>)
    requires |regs| == NRegisters
  {
    DumpPrefix(regs, NRegisters)
  }

  /**
   * The dump shows the snapshot exactly as the kernel lays it out: row `i`
   * is word `i`, labelled with the name on descriptor `i`.
   */
  lemma DumpPrefixShowsSnapshot(regs: seq<Word>, n: nat, i: nat)
    requires |regs| == NRegisters && i < n <= NRegisters
    ensures |DumpPrefix(regs, n)| == n
    ensures DumpPrefix(regs, n)[i] == (Descriptors[i].name, regs[i])
  {
    assert DumpPrefix(regs, n)[i] == DumpRow(regs, i);
    SlotOfPosition(i);
  }

  /** Printing one more row extends the dump by the row of the next descriptor. */
  lemma DumpPrefixGrows(regs: seq<Word>, n: nat)
    requires |regs| == NRegisters && n < NRegisters
    ensures DumpPrefix(regs, n + 1) == DumpPrefix(regs, n) + [DumpRow(regs, n)]
  {
    var longer := DumpPrefix(regs, n + 1);
    var grown := DumpPrefix(regs, n) + [DumpRow(regs, n)];
    assert |longer| == |grown| == n + 1;
    forall k | 0 <= k <= n
      ensures longer[k] == grown[k]
    {
      assert longer[k] == DumpRow(regs, k);
    }
  }

  /** The whole dump: one row per snapshot word, in snapshot order. */
  lemma DumpRowsShowSnapshot(regs: seq<Word>)
    requires |regs| == NRegisters
    ensures |DumpRows(regs)| == NRegisters
    ensures forall i :: 0 <= i < NRegisters ==> DumpRows(regs)[i] == (Descriptors[i].name, regs[i])
  {
    forall i | 0 <= i < NRegisters
      ensures DumpRows(regs)[i] == (Descriptors[i].name, regs[i])
    {
      DumpPrefixShowsSnapshot(regs, NRegisters, i);
    }
  }

  /** Whether handling `line` throws a C++ exception that nothing catches. */
  predicate Throws(line: string)
  {
    var c := ParseCommand(line);
    c.Err? && IsUncaughtException(c.error)
  }

  /** Whether `line` decodes to `quit`. */
  predicate IsQuitLine(line: string)
  {
    ParseCommand(line) == Ok(Command.Quit)
  }

  /** Whether the command loop ends right after handling `line`. */
  predicate StopsAfter(line: string)
  {
    IsQuitLine(line) || Throws(line)
  }

  /**
   * Where a loop over `lines` stops when it is at line `k` with quit flag
   * `quit`: it handles line `k`, then stops if the flag is set or `stops`
   * holds of that line, and otherwise goes on with the next line.  The
   * result is the number of lines handled from the start.  The command loop
   * is the instance `stops == StopsAfter`, started at line 0.
   */
  function LinesHandled(lines: seq<string>, k: nat, quit: bool, stops: string -> bool): (n: nat)
    requires k <= |lines|
    ensures k <= n <= |lines|
    decreases |lines| - k
  {
    if k == |lines| then k
    else if quit || stops(lines[k]) then k + 1
    else LinesHandled(lines, k + 1, false, stops)
  }

  /**
   * From line `k` with the flag clear, the loop handles lines up to and
   * including the first stopping line, and no line before that stops it.
   */
  lemma {:induction false} LinesHandledStopsAtFirstStop(lines: seq<string>, k: nat, stops: string -> bool)
    requires k <= |lines|
    ensures var n := LinesHandled(lines, k, false, stops);
      && (forall j :: k <= j < n - 1 ==> !stops(lines[j]))
      && (n < |lines| ==> n > k && stops(lines[n - 1]))
      && (k < |lines| ==> n > k)
    decreases |lines| - k
  {
    if k < |lines| && !stops(lines[k]) {
      LinesHandledStopsAtFirstStop(lines, k + 1, stops);
    }
  }

  /** No line after a stopping line (in the command loop: a quit line) is handled. */
  lemma {:induction false} QuitBoundsSession(lines: seq<string>, k: nat, quit: bool, stops: string -> bool, q: nat)
    requires k <= q < |lines| && stops(lines[q])
    ensures LinesHandled(lines, k, quit, stops) <= q + 1
    decreases q - k
  {
    if k < q && !quit && !stops(lines[k]) {
      QuitBoundsSession(lines, k + 1, false, stops, q);
    }
  }

  /** Without stopping lines, every line is handled. */
  lemma {:induction false} AllLinesHandled(lines: seq<string>, k: nat, stops: string -> bool)
    requires k <= |lines|
    requires forall j :: k <= j < |lines| ==> !stops(lines[j])
    ensures LinesHandled(lines, k, false, stops) == |lines|
    decreases |lines| - k
  {
    if k < |lines| {
      AllLinesHandled(lines, k + 1, stops);
    }
  }

  /**
   * What a loop over `lines` does from line `k` with flag `quit`, when
   * handling a line sets the flag if `isQuit` holds of it and ends the
   * program if `throws` does: the number of lines handled from the start,
   * and the flag at the end.  The loop stops after a line that throws or
   * that leaves the flag set.  The command loop is the instance
   * `isQuit == IsQuitLine`, `throws == Throws`, started at line 0.
   */
  function Session(lines: seq<string>, k: nat, quit: bool, isQuit: string -> bool, throws: string -> bool): (r: (nat, bool))
    requires k <= |lines|
    ensures k <= r.0 <= |lines|
    decreases |lines| - k
  {
    if k == |lines| then (k, quit)
    else
      var q := quit || isQuit(lines[k]);
      if throws(lines[k]) || q then (k + 1, q)
      else Session(lines, k + 1, q, isQuit, throws)
  }

  /** The session handles `LinesHandled` lines, for the test that stops after either kind of line. */
  lemma {:induction false} SessionHandled(lines: seq<string>, k: nat, quit: bool, isQuit: string -> bool, throws: string -> bool, stops: string -> bool)
    requires k <= |lines|
    requires forall line :: stops(line) <==> isQuit(line) || throws(line)
    ensures Session(lines, k, quit, isQuit, throws).0 == LinesHandled(lines, k, quit, stops)
    decreases |lines| - k
  {
    if k < |lines| && !quit && !stops(lines[k]) {
      SessionHandled(lines, k + 1, false, isQuit, throws, stops);
    }
  }

  /** The flag ends set iff it was set or one of the lines handled sets it. */
  lemma {:induction false} SessionFlag(lines: seq<string>, k: nat, quit: bool, isQuit: string -> bool, throws: string -> bool)
    requires k <= |lines|
    ensures var (n, q) := Session(lines, k, quit, isQuit, throws);
      q == (quit || exists j :: k <= j < n && isQuit(lines[j]))
    decreases |lines| - k
  {
    var (n, q) := Session(lines, k, quit, isQuit, throws);
    if k < |lines| {
      if isQuit(lines[k]) {
        assert k <= k < n && isQuit(lines[k]);
      } else if !throws(lines[k]) && !quit {
        SessionFlag(lines, k + 1, false, isQuit, throws);
      }
    }
  }

  /** The command loop's instance of the session laws. */
  lemma CommandSession(lines: seq<string>, quit: bool)
    ensures var (n, q) := Session(lines, 0, quit, IsQuitLine, Throws);
      && n == LinesHandled(lines, 0, quit, StopsAfter)
      && q == (quit || exists j :: 0 <= j < n && IsQuitLine(lines[j]))
  {
    SessionHandled(lines, 0, quit, IsQuitLine, Throws, StopsAfter);
    SessionFlag(lines, 0, quit, IsQuitLine, Throws);
  }

  /**
   * Where a session stops: before the end of the input only right after a
   * line that threw or left the flag set; and the flag it ends with is set
   * by its last line, or was already set when that line was the first.
   */
  lemma {:induction false} SessionLast(lines: seq<string>, k: nat, quit: bool,
                                       isQuit: string -> bool, throws: string -> bool)
    requires k <= |lines|
    ensures var (n, q) := Session(lines, k, quit, isQuit, throws);
      && (n < |lines| ==> k < n && (throws(lines[n - 1]) || q))
      && (k < n ==> (q <==> (n - 1 == k && quit) || isQuit(lines[n - 1])))
    decreases |lines| - k
  {
    if k < |lines| && !throws(lines[k]) && !quit && !isQuit(lines[k]) {
      SessionLast(lines, k + 1, false, isQuit, throws);
    }
  }

  /** How `run` ends after handling `handled` of `lines`, the flag left at `quit`. */
  function Ending(lines: seq<string>, handled: nat, quit: bool): Outcome
    requires handled <= |lines|
  {
    if handled >= 1 && Throws(lines[handled - 1]) then Aborted(ParseCommand(lines[handled - 1]).error)
    else if quit && handled >= 1 then Quitted
    else EndOfInput
  }

  /**
   * What the ending of a command session tells about its lines: quitting
   * is the flag, aborting is the last line throwing, and the end of input
   * is reached only when every line was handled.
   */
  lemma RunEnding(lines: seq<string>, quit0: bool, handled: nat, quit: bool, outcome: Outcome)
    requires (handled, quit) == Session(lines, 0, quit0, IsQuitLine, Throws)
    requires outcome == Ending(lines, handled, quit)
    ensures outcome == Quitted ==> quit
    ensures !quit0 ==> (outcome == Quitted <==> quit)
    ensures outcome == Quitted <==> quit && handled >= 1 && !outcome.Aborted?
    ensures outcome.Aborted? ==>
      handled >= 1 && ParseCommand(lines[handled - 1]) == Err(outcome.error)
      && IsUncaughtException(outcome.error)
    ensures outcome.Aborted? <==> handled >= 1 && Throws(lines[handled - 1])
    ensures outcome == EndOfInput ==> handled == |lines|
  {
    SessionLast(lines, 0, quit0, IsQuitLine, Throws);
    if !quit0 && quit {
      // the line that set the flag decoded to `quit`, so it did not throw
      assert IsQuitLine(lines[handled - 1]);
      assert !Throws(lines[handled - 1]);
    }
  }

  /**
   * A session "continue", "q", "cont": the spelled-out command is unknown
   * and the loop goes on, the quit line ends it, and the line after it is
   * never handled.
   */
  lemma QuitEndsSession()
    ensures LinesHandled(["continue", "q", "cont"], 0, false, StopsAfter) == 2
  {
    var lines := ["continue", "q", "cont"];
    assert !StopsAfter(lines[0]) by {
      ContinueSpelledOutUnknown();
    }
    assert StopsAfter(lines[1]) by {
      QuitLetter();
    }
    assert LinesHandled(lines, 1, false, StopsAfter) == 2;
  }

  /**
   * The `std::find_if` over the descriptor table by identity that the
   * register accessors share: it stops at the entry of `r`.
   */
  method FindDescriptor(r: Reg) returns (i: nat)
    ensures i == SlotOf(r) && Descriptors[i].r == r
  {
    i := FindFirst(Descriptors, ByReg(r));
    FindByReg(r);
  }

  class Debugger {
    /** `_prog_name`: kept, never read. */
    const progName: string
    /** `_pid`: the traced child. */
    const target: Tracee
    /** `_quit`. */
    var quit: bool
    /** `_breakpoints`: one breakpoint per address. */
    var breakpoints: map<Address, Breakpoint>

    /**
     * The breakpoint objects carrying out `cmd` may change: only `del`
     * touches one, the breakpoint stored at its address.  `break` enables a
     * new object, and every other command leaves breakpoints alone.
     */
    ghost function Touches(cmd: Command): set<Breakpoint>
      reads this
    {
      if cmd.DeleteBreakpoint? && cmd.addr in breakpoints then {breakpoints[cmd.addr]} else {}
    }

    /** The breakpoint objects handling `line` may change: none if it does not decode. */
    ghost function LineTouches(line: string): set<Breakpoint>
      reads this
    {
      if ParseCommand(line).Ok? then Touches(ParseCommand(line).value) else {}
    }

    /**
     * The snapshot has one word per register, and the breakpoint stored
     * under an address patches that address of this debugger's child.
     */
    ghost predicate Valid()
      reads this, target
    {
      && target.Valid()
      && forall a :: a in breakpoints ==> breakpoints[a].addr == a && breakpoints[a].target == target
    }

    constructor (progName: string, target: Tracee)
      requires target.Valid()
      ensures Valid()
      ensures this.progName == progName && this.target == target
      ensures !quit && breakpoints == map[]
    {
      this.progName := progName;
      this.target := target;
      quit := false;
      breakpoints := map[];
    }

    /**
     * `set_breakpoint_at_address`: a new breakpoint, enabled at once, takes
     * the address's place in the table; the one stored there before, if
     * any, is dropped without being disabled.
     */
    method SetBreakpointAtAddress(a: Address)
      requires Valid()
      modifies this, target
      ensures Valid()
      ensures a in breakpoints && breakpoints == old(breakpoints)[a := breakpoints[a]]
      ensures fresh(breakpoints[a])
      ensures breakpoints.Values <= old(breakpoints.Values) + {breakpoints[a]}
      ensures breakpoints[a].enabled && breakpoints[a].savedData == LowByte(Peek(old(target.memory), a))
      ensures target.memory == Enabled(old(target.memory), a)
      ensures target.regs == old(target.regs) && quit == old(quit)
    {
      var bp := new Breakpoint(target, a);
      bp.Enable();
      breakpoints := breakpoints[a := bp];
    }

    /**
     * `delete_breakpoint_at_address`: disables the breakpoint stored at `a`
     * and reports whether there was one.  The entry stays in the table.
     */
    method DeleteBreakpointAtAddress(a: Address) returns (found: bool)
      requires Valid()
      modifies target, if a in breakpoints then {breakpoints[a]} else {}
      ensures Valid()
      ensures found <==> a in breakpoints
      ensures found ==> !breakpoints[a].enabled && breakpoints[a].savedData == old(breakpoints[a].savedData)
      ensures found ==> target.memory == Disabled(old(target.memory), a, breakpoints[a].savedData)
      ensures !found ==> target.memory == old(target.memory)
      ensures target.regs == old(target.regs)
    {
      found := a in breakpoints;
      if found {
        var bp := breakpoints[a];
        bp.Disable();
      }
    }

    /**
     * `break` then `del` at the same address, with nothing in between,
     * leaves the child's memory as it was: the round trip of
     * `EnableThenDisableRestores` through the debugger's own table.
     */
    method SetThenDelete(a: Address)
      requires Valid()
      modifies this, target
      ensures Valid()
      ensures target.memory == old(target.memory) && target.regs == old(target.regs)
      ensures a in breakpoints && !breakpoints[a].enabled
    {
      ghost var before := target.memory;
      SetBreakpointAtAddress(a);
      var found := DeleteBreakpointAtAddress(a);
      EnableThenDisableRestores(before, a);
    }

    /**
     * A register read between "break 0x<hex of a>" and "del 0x<hex of a>"
     * disturbs neither the child's memory nor the byte the breakpoint saved:
     * the delete still puts the original byte back.
     */
    method BreakReadDelete(a: nat, name: string) returns (result: Result<Output, CommandError>)
      requires Valid() && a <= LongMax && IsRegisterName(name)
      modifies this, target, breakpoints.Values
      ensures Valid()
      ensures target.memory == old(target.memory)
    {
      ghost var before := target.memory;
      var breakLine := "break" + " " + "0x" + ToHex(a);
      BreakAndDeleteLines("break", a);
      var placed := HandleBreakLine(breakLine, a);
      ghost var bp := breakpoints[a];
      ghost var saved := LowByte(Peek(before, a));
      assert bp.savedData == saved && target.memory == Enabled(before, a);
      var readLine := "register" + " " + "read" + " " + name;
      RegisterReadLine(name);
      var read := HandleReadLine(readLine, RegisterFromName(name));
      assert breakpoints[a] == bp && bp.savedData == saved && target.memory == Enabled(before, a);
      var deleteLine := "del" + " " + "0x" + ToHex(a);
      BreakAndDeleteLines("del", a);
      result := HandleDeleteLine(deleteLine, a);
      EnableThenDisableRestores(before, a);
    }

    /**
     * `get_register_value`: fetch the snapshot and read the word at the
     * slot of `r`'s descriptor, which is `r`'s word in the kernel layout.
     */
    method GetRegisterValue(r: Reg) returns (v: Word)
      requires Valid()
      ensures v == RegisterValue(target.regs, r)
    {
      var regs := target.regs;
      var i := FindDescriptor(r);
      v := regs[i];
    }

    /**
     * `set_register_value`: fetch the snapshot, replace the word of `r`,
     * and store the snapshot back; every other register keeps its value.
     */
    method SetRegisterValue(r: Reg, v: Word)
      requires Valid()
      modifies target
      ensures Valid()
      ensures target.regs == WithRegister(old(target.regs), r, v)
      ensures target.memory == old(target.memory)
    {
      var regs := target.regs;
      var i := FindDescriptor(r);
      regs := regs[i := v];
      target.SetRegs(regs);
    }

    /**
     * `get_register_value_from_dwarf_register`: the value of the first
     * register whose DWARF number is `n`.  An unknown number dereferences
     * the end iterator in the source, so it is the caller's obligation.
     */
    method GetRegisterValueFromDwarfRegister(n: int) returns (v: Word)
      requires Valid() && IsDwarfNumber(n)
      ensures v == RegisterValue(target.regs, RegisterFromDwarf(n))
      ensures Descriptors[SlotOf(RegisterFromDwarf(n))].dwarf == n
    {
      var r := RegisterFromDwarf(n);
      v := GetRegisterValue(r);
    }

    /** `dump_registers`: every descriptor in table order, with its register's value. */
    method DumpRegisters() returns (rows: seq<(string, Word)>)
      requires Valid()
      ensures rows == DumpRows(target.regs)
    {
      rows := [];
      var i := 0;
      while i < |Descriptors|
        invariant 0 <= i <= NRegisters
        invariant rows == DumpPrefix(target.regs, i)
      {
        var rd := Descriptors[i];
        var v := GetRegisterValue(rd.r);
        rows := rows + [(rd.name, v)];
        DumpPrefixGrows(target.regs, i);
        i := i + 1;
      }
    }

    /** `continue_execution`: resume the child and wait until it stops again. */
    method ContinueExecution()
      requires Valid()
      modifies target
      ensures Valid()
    {
      target.ContinueAndWait();
    }

    /** `quit`. */
    method Quit()
      modifies this
      ensures quit
      ensures breakpoints == old(breakpoints)
    {
      quit := true;
    }

    /**
     * What carrying out `cmd` does to the debugger and the child, and what
     * it reports.  Nothing else changes: the quit flag only for `quit`, the
     * breakpoint table only for `break`, the child's memory only for `cont`,
     * `break` and a `del` that finds its breakpoint, its registers only for
     * `cont` and `register write`.
     */
    twostate predicate Performs(cmd: Command, out: Output)
      reads this, target, breakpoints.Values
    {
      && |old(target.regs)| == NRegisters && |target.regs| == NRegisters
      && quit == (old(quit) || cmd == Command.Quit)
      && (cmd.SetBreakpoint? || breakpoints == old(breakpoints))
      && (cmd.Continue? || cmd.WriteRegister? || target.regs == old(target.regs))
      && (cmd.Continue? || cmd.SetBreakpoint? || cmd.DeleteBreakpoint? || target.memory == old(target.memory))
      && match cmd
        case Continue => out == Nothing
        case DumpRegisters => out == RegisterRows(DumpRows(target.regs))
        case ReadRegister(r) => out == RegisterRead(RegisterValue(target.regs, r))
        case WriteRegister(r, v) =>
          && out == Nothing
          && target.regs == WithRegister(old(target.regs), r, v)
        case RegisterNoOp => out == Nothing
        case SetBreakpoint(a) =>
          && out == BreakpointSet(a)
          && a in breakpoints && breakpoints == old(breakpoints)[a := breakpoints[a]]
          && fresh(breakpoints[a]) && breakpoints[a].enabled
          && breakpoints[a].savedData == LowByte(Peek(old(target.memory), a))
          && target.memory == Enabled(old(target.memory), a)
        case DeleteBreakpoint(a) =>
          if a in breakpoints then
            && out == BreakpointDeleted(a)
            && !breakpoints[a].enabled && breakpoints[a].savedData == old(breakpoints[a].savedData)
            && target.memory == Disabled(old(target.memory), a, breakpoints[a].savedData)
          else
            out == BreakpointNotFound(a) && target.memory == old(target.memory)
        case Quit => out == Nothing
    }

    /**
     * `handle_command`: split the line, route its first token, and carry out
     * the command.  No branch of the source has an effect before its last
     * point of failure, so this decodes the line completely first; a line
     * that does not decode changes nothing.
     */
    method HandleCommand(line: string) returns (result: Result<Output, CommandError>)
      requires Valid()
      modifies this, target, LineTouches(line)
      ensures Valid()
      ensures forall b :: b in breakpoints.Values ==> b in old(breakpoints.Values) || fresh(b)
      ensures quit == (old(quit) || ParseCommand(line) == Ok(Command.Quit))
      ensures ParseCommand(line).Err? ==>
        && result == Err(ParseCommand(line).error)
        && quit == old(quit) && breakpoints == old(breakpoints)
        && target.memory == old(target.memory) && target.regs == old(target.regs)
      ensures ParseCommand(line).Ok? ==> result.Ok? && Performs(ParseCommand(line).value, result.value)
    {
      var args := Split(line, ' ');
      match Dispatch(args)
      case Err(e) =>
        result := Err(e);
      case Ok(cmd) =>
        var out := Execute(cmd);
        result := Ok(out);
    }

    /** The effect half of `handle_command`: the calls each branch makes. */
    method Execute(cmd: Command) returns (out: Output)
      requires Valid()
      modifies this, target, Touches(cmd)
      ensures Valid()
      ensures forall b :: b in breakpoints.Values ==> b in old(breakpoints.Values) || fresh(b)
      ensures Performs(cmd, out)
    {
      match cmd
      case Continue =>
        ContinueExecution();
        out := Nothing;
      case DumpRegisters =>
        var rows := DumpRegisters();
        out := RegisterRows(rows);
      case ReadRegister(r) =>
        var v := GetRegisterValue(r);
        out := RegisterRead(v);
      case WriteRegister(r, v) =>
        SetRegisterValue(r, v);
        out := Nothing;
      case RegisterNoOp =>
        out := Nothing;
      case SetBreakpoint(a) =>
        SetBreakpointAtAddress(a);
        out := BreakpointSet(a);
      case DeleteBreakpoint(a) =>
        var found := DeleteBreakpointAtAddress(a);
        out := if found then BreakpointDeleted(a) else BreakpointNotFound(a);
      case Quit =>
        Quit();
        out := Nothing;
    }

    /**
     * `handle_command` on a line that decodes to a register write.  This and
     * the three methods like it below only restate what `HandleCommand`
     * promises for one kind of line, so that the round trips after them
     * reason about a small contract instead of `Performs`.
     */
    method HandleWriteLine(line: string, ghost r: Reg, ghost v: Word) returns (result: Result<Output, CommandError>)
      requires Valid() && ParseCommand(line) == Ok(WriteRegister(r, v))
      modifies this, target
      ensures Valid()
      ensures breakpoints == old(breakpoints) && quit == old(quit)
      ensures target.regs == WithRegister(old(target.regs), r, v)
      ensures target.memory == old(target.memory)
    {
      result := HandleCommand(line);
    }

    /** `handle_command` on a line that decodes to a register read (kept small, as above). */
    method HandleReadLine(line: string, ghost r: Reg) returns (result: Result<Output, CommandError>)
      requires Valid() && ParseCommand(line) == Ok(ReadRegister(r))
      modifies this, target
      ensures Valid()
      ensures breakpoints == old(breakpoints) && quit == old(quit)
      ensures target.regs == old(target.regs) && target.memory == old(target.memory)
      ensures result == Ok(RegisterRead(RegisterValue(target.regs, r)))
    {
      result := HandleCommand(line);
    }

    /**
     * The round trip at the prompt: "register write <name> 0x<hex of n>"
     * followed by "register read <name>" reads back `n`, for every name in
     * the table and every 64-bit value.
     */
    method WriteThenRead(name: string, n: nat) returns (result: Result<Output, CommandError>)
      requires Valid() && IsRegisterName(name) && n <= ULongLongMax
      modifies this, target, breakpoints.Values
      ensures Valid()
      ensures result == Ok(RegisterRead(n as Word))
    {
      ghost var r := RegisterFromName(name);
      ghost var before := target.regs;
      var writeLine := "register" + " " + "write" + " " + name + " " + ("0x" + ToHex(n));
      RegisterWriteLine(name, n);
      var written := HandleWriteLine(writeLine, r, n as Word);
      var readLine := "register" + " " + "read" + " " + name;
      RegisterReadLine(name);
      result := HandleReadLine(readLine, r);
      ReadAfterWrite(before, r, n as Word);
    }

    /** `handle_command` on a line that decodes to `break` (kept small, as above). */
    method HandleBreakLine(line: string, ghost a: Address) returns (result: Result<Output, CommandError>)
      requires Valid() && ParseCommand(line) == Ok(SetBreakpoint(a))
      modifies this, target
      ensures Valid()
      ensures forall b :: b in breakpoints.Values ==> b in old(breakpoints.Values) || fresh(b)
      ensures a in breakpoints && breakpoints == old(breakpoints)[a := breakpoints[a]]
      ensures breakpoints[a].enabled && breakpoints[a].savedData == LowByte(Peek(old(target.memory), a))
      ensures target.memory == Enabled(old(target.memory), a)
      ensures target.regs == old(target.regs) && quit == old(quit)
    {
      result := HandleCommand(line);
    }

    /**
     * `handle_command` on a line that decodes to `del` at an address with a
     * breakpoint (kept small, as above).
     */
    method HandleDeleteLine(line: string, ghost a: Address) returns (result: Result<Output, CommandError>)
      requires Valid() && ParseCommand(line) == Ok(DeleteBreakpoint(a)) && a in breakpoints
      modifies this, target, breakpoints[a]
      ensures Valid()
      ensures breakpoints == old(breakpoints) && !breakpoints[a].enabled
      ensures target.memory == Disabled(old(target.memory), a, old(breakpoints[a].savedData))
      ensures target.regs == old(target.regs) && quit == old(quit)
    {
      result := HandleCommand(line);
    }

    /**
     * "break 0x<hex of a>" followed by "del 0x<hex of a>" leaves the child's
     * memory exactly as it was, for every address up to LONG_MAX.
     */
    method BreakThenDelete(a: nat) returns (result: Result<Output, CommandError>)
      requires Valid() && a <= LongMax
      modifies this, target, breakpoints.Values
      ensures Valid()
      ensures target.memory == old(target.memory)
    {
      ghost var before := target.memory;
      var breakLine := "break" + " " + "0x" + ToHex(a);
      BreakAndDeleteLines("break", a);
      var placed := HandleBreakLine(breakLine, a);
      var deleteLine := "del" + " " + "0x" + ToHex(a);
      BreakAndDeleteLines("del", a);
      result := HandleDeleteLine(deleteLine, a);
      EnableThenDisableRestores(before, a);
    }

    /**
     * One turn of the loop of `run`: `handle_command` on the line, seen from
     * the loop, which only looks at the quit flag and at whether the line
     * threw.  The loop stops after this line exactly when `StopsAfter` holds
     * of it or the flag was already set.
     */
    method HandleLine(line: string) returns (threw: bool)
      requires Valid()
      modifies this, target, breakpoints.Values
      ensures Valid()
      ensures forall b :: b in breakpoints.Values ==> b in old(breakpoints.Values) || fresh(b)
      ensures quit == (old(quit) || ParseCommand(line) == Ok(Command.Quit))
      ensures threw <==> Throws(line)
      ensures StopsAfter(line) <==> threw || ParseCommand(line) == Ok(Command.Quit)
    {
      var result := HandleCommand(line);
      threw := result.Err? && IsUncaughtException(result.error);
    }

    /**
     * One pass of the loop of `run` over line `k`: the session that is left
     * from line `k` is this line's effect followed by the session from line
     * `k + 1`, unless the loop stops here.
     */
    method HandleNext(lines: seq<string>, k: nat) returns (threw: bool)
      requires Valid()
      requires k < |lines|
      modifies this, target, breakpoints.Values
      ensures Valid()
      ensures forall b :: b in breakpoints.Values ==> b in old(breakpoints.Values) || fresh(b)
      ensures threw <==> Throws(lines[k])
      ensures Session(lines, k, old(quit), IsQuitLine, Throws)
        == if threw || quit then (k + 1, quit) else Session(lines, k + 1, quit, IsQuitLine, Throws)
    {
      threw := HandleLine(lines[k]);
    }

    /**
     * `run`: handle input lines one by one until the input ends, the quit
     * flag is set after a line, or a line throws.
     */
    method Run(lines: seq<string>) returns (handled: nat, outcome: Outcome)
      requires Valid()
      modifies this, target, breakpoints.Values
      ensures Valid()
      ensures (handled, quit) == Session(lines, 0, old(quit), IsQuitLine, Throws)
      ensures handled == LinesHandled(lines, 0, old(quit), StopsAfter)
      ensures quit == (old(quit) || exists j :: 0 <= j < handled && IsQuitLine(lines[j]))
      ensures outcome == Quitted ==> quit
      ensures !old(quit) ==> (outcome == Quitted <==> quit)
      ensures outcome == Quitted <==> quit && handled >= 1 && !outcome.Aborted?
      ensures outcome.Aborted? ==>
        handled >= 1 && ParseCommand(lines[handled - 1]) == Err(outcome.error)
        && IsUncaughtException(outcome.error)
      ensures outcome.Aborted? <==> handled >= 1 && Throws(lines[handled - 1])
      ensures outcome == EndOfInput ==> handled == |lines|
    {
      ghost var quit0 := quit;
      handled, outcome := ReadEvalLoop(lines);
      CommandSession(lines, quit0);
      RunEnding(lines, quit0, handled, quit, outcome);
    }

    /**
     * The `while` loop of `run`: the lines handled and the flag left are
     * those of the command session, and the outcome is its `Ending`.
     */
    method ReadEvalLoop(lines: seq<string>) returns (handled: nat, outcome: Outcome)
      requires Valid()
      modifies this, target, breakpoints.Values
      ensures Valid()
      ensures forall b :: b in breakpoints.Values ==> b in old(breakpoints.Values) || fresh(b)
      ensures (handled, quit) == Session(lines, 0, old(quit), IsQuitLine, Throws)
      ensures handled <= |lines| && outcome == Ending(lines, handled, quit)
    {
      ghost var goal := Session(lines, 0, quit, IsQuitLine, Throws);
      handled := 0;
      outcome := EndOfInput;
      while handled < |lines|
        invariant Valid()
        invariant handled <= |lines|
        invariant forall b :: b in breakpoints.Values ==> b in old(breakpoints.Values) || fresh(b)
        invariant goal == Session(lines, handled, quit, IsQuitLine, Throws)
        invariant outcome == EndOfInput
        invariant handled > 0 ==> !quit && !Throws(lines[handled - 1])
      {
        var threw := HandleNext(lines, handled);
        handled := handled + 1;
        if threw {
          outcome := Aborted(ParseCommand(lines[handled - 1]).error);
          break;
        }
        if quit {
          outcome := Quitted;
          break;
        }
      }
    }
  }
}
