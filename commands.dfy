/**
 * Command-line decoding of `debugger::handle_command` (src/debugger.cpp):
 * split the line on spaces, route the first token by prefix through a
 * first-match chain (cont, register, break, del, quit), and decode the
 * arguments the chosen branch reads.  Everything that can go wrong does so
 * before any effect on the target, so decoding is a function on its own.
 */
module Commands {
  import opened Wrappers
  import opened Text
  import opened Hex
  import opened Registers
  import opened RegisterLookup
  import opened Words
  import opened Target

  /** The branch of the dispatch chain a command token selects. */
  datatype Verb = ContVerb | RegisterVerb | BreakVerb | DelVerb | QuitVerb | UnknownVerb

  /** The first-match chain on the command token. */
  function Route(command: string): (v: Verb)
    ensures command == [] ==> v == ContVerb
    ensures v != UnknownVerb ==> |command| <= |"register"|
  {
    if IsPrefix(command, "cont") then ContVerb
    else if IsPrefix(command, "register") then RegisterVerb
    else if IsPrefix(command, "break") then BreakVerb
    else if IsPrefix(command, "del") then DelVerb
    else if IsPrefix(command, "quit") then QuitVerb
    else UnknownVerb
  }

  datatype Command =
    | Continue
    | DumpRegisters
    | ReadRegister(r: Reg)
      /** `value` is what `std::stoull` returned: an `unsigned long long`, at most ULLONG_MAX. */
    | WriteRegister(r: Reg, value: Word)
      /** `register` with a subcommand that is none of dump, read, write: nothing happens. */
    | RegisterNoOp
    | SetBreakpoint(addr: Address)
    | DeleteBreakpoint(addr: Address)
    | Quit

  datatype CommandError =
      /** An argument the branch reads is missing (out-of-bounds `args[i]` in the source). */
    | MissingArgument
      /** `std::string(arg, 2)` on an argument shorter than two characters throws out_of_range. */
    | ArgumentTooShort
      /** The hex conversion found no digit (invalid_argument). */
    | InvalidNumber
      /** The hex conversion overflowed its result type (out_of_range). */
    | NumberOutOfRange
      /** The register name is not in the table (the source dereferences the end iterator). */
    | UnknownRegister
      /** No branch matched: "Unknown command". */
    | UnknownCommand

  /** The branch of the dispatch chain that produces `cmd`. */
  function VerbOf(cmd: Command): Verb
  {
    match cmd
    case Continue => ContVerb
    case DumpRegisters => RegisterVerb
    case ReadRegister(_) => RegisterVerb
    case WriteRegister(_, _) => RegisterVerb
    case RegisterNoOp => RegisterVerb
    case SetBreakpoint(_) => BreakVerb
    case DeleteBreakpoint(_) => DelVerb
    case Quit => QuitVerb
  }

  /** The errors that are C++ exceptions in the source; nothing catches them. */
  predicate IsUncaughtException(e: CommandError)
  {
    e == ArgumentTooShort || e == InvalidNumber || e == NumberOutOfRange
  }

  /**
   * An address or value argument: drop the first two characters, whatever
   * they are (the source takes them to be "0x"), and parse the rest in hex.
   */
  function HexArgument(token: string, max: nat): (r: Result<nat, CommandError>)
    ensures |token| < 2 ==> r == Err(ArgumentTooShort)
    ensures r.Ok? ==> r.value <= max
    ensures |token| >= 2 ==> (r.Ok? <==> ParseHex(token[2..], max).Ok?)
    ensures |token| >= 2 && r.Ok? ==> r.value == ParseHex(token[2..], max).value
    ensures r == Err(InvalidNumber) <==> |token| >= 2 && ParseHex(token[2..], max) == Err(InvalidArgument)
    ensures r == Err(NumberOutOfRange) <==> |token| >= 2 && ParseHex(token[2..], max) == Err(OutOfRange)
  {
    if |token| < 2 then Err(ArgumentTooShort)
    else match ParseHex(token[2..], max)
      case Ok(v) => Ok(v)
      case Err(InvalidArgument) => Err(InvalidNumber)
      case Err(OutOfRange) => Err(NumberOutOfRange)
  }

  /** The `register` branch, given the tokens of the line. */
  function RegisterCommand(args: seq<string>): (r: Result<Command, CommandError>)
    requires |args| >= 1
    ensures r.Ok? ==> VerbOf(r.value) == RegisterVerb
    ensures r != Err(UnknownCommand)
    ensures r == Ok(RegisterNoOp) <==>
      |args| >= 2 && !IsPrefix(args[1], "dump") && !IsPrefix(args[1], "read") && !IsPrefix(args[1], "write")
    ensures r.Ok? && r.value.WriteRegister? ==>
      |args| >= 4 && IsRegisterName(args[2]) && r.value.r == RegisterFromName(args[2])
  {
    if |args| < 2 then Err(MissingArgument)
    else if IsPrefix(args[1], "dump") then Ok(DumpRegisters)
    else if IsPrefix(args[1], "read") then
      if |args| < 3 then Err(MissingArgument)
      else if !IsRegisterName(args[2]) then Err(UnknownRegister)
      else Ok(ReadRegister(RegisterFromName(args[2])))
    else if IsPrefix(args[1], "write") then
      if |args| < 4 then Err(MissingArgument)
      else if |args[3]| < 2 then Err(ArgumentTooShort)
      else if !IsRegisterName(args[2]) then Err(UnknownRegister)
      else match HexArgument(args[3], ULongLongMax)
        case Ok(v) => Ok(WriteRegister(RegisterFromName(args[2]), v as Word))
        case Err(e) => Err(e)
    else Ok(RegisterNoOp)
  }

  /** The dispatch of `handle_command` on the tokens of the line. */
  function Dispatch(args: seq<string>): (r: Result<Command, CommandError>)
    ensures args == [] ==> r == Err(MissingArgument)
    ensures r.Ok? ==> args != [] && VerbOf(r.value) == Route(args[0])
    ensures r == Err(UnknownCommand) <==> args != [] && Route(args[0]) == UnknownVerb
  {
    if |args| == 0 then Err(MissingArgument)
    else match Route(args[0])
      case ContVerb => Ok(Continue)
      case RegisterVerb => RegisterCommand(args)
      case BreakVerb =>
        if |args| < 2 then Err(MissingArgument)
        else (match HexArgument(args[1], LongMax)
          case Ok(a) => Ok(SetBreakpoint(a))
          case Err(e) => Err(e))
      case DelVerb =>
        if |args| < 2 then Err(MissingArgument)
        else (match HexArgument(args[1], LongMax)
          case Ok(a) => Ok(DeleteBreakpoint(a))
          case Err(e) => Err(e))
      case QuitVerb => Ok(Quit)
      case UnknownVerb => Err(UnknownCommand)
  }

  /** `handle_command` up to its first effect: what the line asks for, or why it fails. */
  function ParseCommand(line: string): (r: Result<Command, CommandError>)
    ensures line == [] ==> r == Err(MissingArgument)
    ensures r.Ok? ==> Tokens(line, ' ') != [] && VerbOf(r.value) == Route(Tokens(line, ' ')[0])
  {
    Dispatch(Tokens(line, ' '))
  }
}
