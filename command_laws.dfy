/**
 * Laws of the command decoding: which tokens reach which branch, how
 * arguments are read, and what whole command lines decode to.
 */
module CommandLaws {
  import opened Wrappers
  import opened Text
  import opened Hex
  import opened Registers
  import opened RegisterLookup
  import opened Words
  import opened Commands

  /**
   * Which tokens reach which branch.  The canonical names start with five
   * different letters, so the order of the chain only decides the empty
   * token, which is a prefix of all of them and continues.  A token longer
   * than the canonical name (such as "continue") matches nothing.
   */
  lemma RouteByPrefix(w: string)
    ensures Route(w) == ContVerb <==> w <= "cont"
    ensures Route(w) == RegisterVerb <==> w != [] && w <= "register"
    ensures Route(w) == BreakVerb <==> w != [] && w <= "break"
    ensures Route(w) == DelVerb <==> w != [] && w <= "del"
    ensures Route(w) == QuitVerb <==> w != [] && w <= "quit"
    ensures Route(w) == UnknownVerb <==>
      !(w <= "cont" || w <= "register" || w <= "break" || w <= "del" || w <= "quit")
  {
    if w != [] {
      if w <= "register" { assert w[0] == 'r'; }
      if w <= "break" { assert w[0] == 'b'; }
      if w <= "del" { assert w[0] == 'd'; }
      if w <= "quit" { assert w[0] == 'q'; }
    }
  }

  /** Spelled-out examples of the prefix rule. */
  lemma RouteExamples()
    ensures Route("c") == ContVerb && Route("cont") == ContVerb && Route("continue") == UnknownVerb
    ensures Route("d") == DelVerb && Route("del") == DelVerb && Route("delete") == UnknownVerb
    ensures Route("b") == BreakVerb && Route("q") == QuitVerb && Route("") == ContVerb
  {
    assert Route("continue") == UnknownVerb by {
      RouteByPrefix("continue");
    }
    assert Route("delete") == UnknownVerb by {
      RouteByPrefix("delete");
    }
    assert Route("") == ContVerb by {
      RouteByPrefix("");
    }
  }

  /** The first two characters of an argument are discarded, whatever they are. */
  lemma PrefixCharactersIgnored(p: string, q: string, t: string, max: nat)
    requires |p| == 2 && |q| == 2
    ensures HexArgument(p + t, max) == HexArgument(q + t, max)
  {
    assert (p + t)[2..] == t == (q + t)[2..];
  }

  /** An argument written as "0x" and the hex digits of `n` decodes to `n`, if it fits. */
  lemma HexArgumentRoundTrip(n: nat, max: nat)
    requires n <= max
    ensures HexArgument("0x" + ToHex(n), max) == Ok(n)
  {
    assert ("0x" + ToHex(n))[2..] == ToHex(n);
    ParseToHex(n, max);
  }

  /** ... and to an out-of-range error when `n` does not fit. */
  lemma HexArgumentTooBig(n: nat, max: nat)
    requires n > max
    ensures HexArgument("0x" + ToHex(n), max) == Err(NumberOutOfRange)
  {
    assert ("0x" + ToHex(n))[2..] == ToHex(n);
    ParseToHexTooBig(n, max);
  }

  /** The tokens of a line made of two space-free tokens, the second non-empty. */
  lemma TwoTokens(a: string, b: string)
    requires ' ' !in a && ' ' !in b && b != []
    ensures Tokens(a + " " + b, ' ') == [a, b]
  {
    assert Join([a, b], ' ') == a + " " + b by {
      assert [a, b][..1] == [a];
    }
    TokensOfJoin([a, b], ' ');
  }

  /** The tokens of a line made of four space-free tokens, the last non-empty. */
  lemma FourTokens(a: string, b: string, c: string, d: string)
    requires ' ' !in a && ' ' !in b && ' ' !in c && ' ' !in d && d != []
    ensures Tokens(a + " " + b + " " + c + " " + d, ' ') == [a, b, c, d]
  {
    var ts := [a, b, c, d];
    assert ts[..3] == [a, b, c] && ts[..3][..2] == [a, b] && ts[..3][..2][..1] == [a];
    assert Join([a], ' ') == a;
    assert Join([a, b], ' ') == a + " " + b;
    assert Join([a, b, c], ' ') == a + " " + b + " " + c;
    TokensOfJoin(ts, ' ');
  }

  /**
   * Any spelling of `break` followed by "0x" and the hex digits of an
   * address up to LONG_MAX sets a breakpoint at that address; the same
   * for `del`.
   */
  lemma BreakAndDeleteLines(w: string, a: nat)
    requires w != [] && a <= LongMax
    ensures w <= "break" ==> ParseCommand(w + " " + "0x" + ToHex(a)) == Ok(SetBreakpoint(a))
    ensures w <= "del" ==> ParseCommand(w + " " + "0x" + ToHex(a)) == Ok(DeleteBreakpoint(a))
  {
    var arg := "0x" + ToHex(a);
    assert ' ' !in arg by {
      assert forall i :: 0 <= i < |arg| ==> arg[i] == ' ' ==> false by {
        forall i | 0 <= i < |arg| ensures arg[i] != ' ' {
          if i >= 2 { assert IsHexDigit(ToHex(a)[i - 2]); }
        }
      }
    }
    RouteByPrefix(w);
    HexArgumentRoundTrip(a, LongMax);
    if w <= "break" || w <= "del" {
      assert ' ' !in w by {
        forall i | 0 <= i < |w| ensures w[i] != ' ' {
          assert w[i] == (if w <= "break" then "break" else "del")[i];
        }
      }
      assert w + " " + "0x" + ToHex(a) == w + " " + arg;
      TwoTokens(w, arg);
    }
  }

  /** A name in the register table is a single non-empty token. */
  lemma TableNameIsToken(name: string)
    requires IsRegisterName(name)
    ensures ' ' !in name && name != []
  {
    NamesHaveNoSpace();
    var k :| 0 <= k < |Descriptors| && Descriptors[k].name == name;
  }

  /** The tokens of a line made of three space-free tokens, the last non-empty. */
  lemma ThreeTokens(a: string, b: string, c: string)
    requires ' ' !in a && ' ' !in b && ' ' !in c && c != []
    ensures Tokens(a + " " + b + " " + c, ' ') == [a, b, c]
  {
    var ts := [a, b, c];
    assert ts[..2] == [a, b] && ts[..2][..1] == [a];
    assert Join([a], ' ') == a;
    assert Join([a, b], ' ') == a + " " + b;
    TokensOfJoin(ts, ' ');
  }

  /** The argument printed for a 64-bit value is one token. */
  lemma HexArgumentIsToken(n: nat)
    ensures ' ' !in "0x" + ToHex(n)
  {
    var arg := "0x" + ToHex(n);
    forall i | 0 <= i < |arg| ensures arg[i] != ' ' {
      if i >= 2 { assert IsHexDigit(ToHex(n)[i - 2]); }
    }
  }

  /**
   * "register write <name> 0x<hex digits of n>" decodes to a write of `n`
   * to the register of that name, for every name in the table and every
   * 64-bit value.
   */
  lemma RegisterWriteLine(name: string, n: nat)
    requires IsRegisterName(name) && n <= ULongLongMax
    ensures ParseCommand("register" + " " + "write" + " " + name + " " + ("0x" + ToHex(n)))
      == Ok(WriteRegister(RegisterFromName(name), n as Word))
  {
    var arg := "0x" + ToHex(n);
    HexArgumentIsToken(n);
    TableNameIsToken(name);
    FourTokens("register", "write", name, arg);
    HexArgumentRoundTrip(n, ULongLongMax);
    WriteLine("register" + " " + "write" + " " + name + " " + arg, ["register", "write", name, arg]);
  }

  /** A line whose tokens are `register write`, a known name and a well-formed value writes that value. */
  lemma WriteLine(line: string, args: seq<string>)
    requires Tokens(line, ' ') == args && |args| >= 4
    requires args[0] == "register" && args[1] == "write" && IsRegisterName(args[2])
    requires HexArgument(args[3], ULongLongMax).Ok?
    ensures ParseCommand(line)
      == Ok(WriteRegister(RegisterFromName(args[2]), HexArgument(args[3], ULongLongMax).value as Word))
  {
    RegisterDispatch(args);
    WriteSubcommand(args);
  }

  /** "register read <name>" decodes to a read of the register of that name. */
  lemma RegisterReadLine(name: string)
    requires IsRegisterName(name)
    ensures ParseCommand("register" + " " + "read" + " " + name) == Ok(ReadRegister(RegisterFromName(name)))
  {
    TableNameIsToken(name);
    ThreeTokens("register", "read", name);
    RegisterReadArgs(name);
  }

  /** `register read` with a known name. */
  lemma RegisterReadArgs(name: string)
    requires IsRegisterName(name)
    ensures Dispatch(["register", "read", name]) == Ok(ReadRegister(RegisterFromName(name)))
  {
    RegisterDispatch(["register", "read", name]);
    ReadSubcommand(["register", "read", name]);
  }

  /** `register read` with a known name reads that register. */
  lemma ReadSubcommand(args: seq<string>)
    requires |args| >= 3 && args[1] == "read" && IsRegisterName(args[2])
    ensures RegisterCommand(args) == Ok(ReadRegister(RegisterFromName(args[2])))
  {
    assert !IsPrefix("read", "dump") && IsPrefix("read", "read");
  }

  /** `register write` with a known name and a well-formed value writes that value. */
  lemma WriteSubcommand(args: seq<string>)
    requires |args| >= 4 && args[1] == "write" && IsRegisterName(args[2])
    requires HexArgument(args[3], ULongLongMax).Ok?
    ensures RegisterCommand(args)
      == Ok(WriteRegister(RegisterFromName(args[2]), HexArgument(args[3], ULongLongMax).value as Word))
  {
    assert !IsPrefix("write", "dump") && !IsPrefix("write", "read") && IsPrefix("write", "write");
  }

  /** A line whose first token is "register" goes to the `register` branch. */
  lemma RegisterDispatch(args: seq<string>)
    requires |args| >= 1 && args[0] == "register"
    ensures Dispatch(args) == RegisterCommand(args)
  {
    assert Route("register") == RegisterVerb;
  }

  /**
   * "break 400100", without the "0x", loses its first two digits and sets a
   * breakpoint at 0x100.
   */
  lemma BreakWithoutPrefixMisparses()
    ensures ParseCommand("break 400100") == Ok(SetBreakpoint(0x100))
  {
    var args := ["break", "400100"];
    assert Tokens("break 400100", ' ') == args by {
      TwoTokens("break", "400100");
      assert "break" + " " + "400100" == "break 400100";
    }
    assert Route(args[0]) == BreakVerb by {
      RouteByPrefix("break");
    }
    assert HexArgument(args[1], LongMax) == Ok(0x100) by {
      assert "400100"[2..] == "0100";
      ParseLeadingZero();
    }
    BreakLine("break 400100", args, 0x100);
  }

  /**
   * "b 1": the argument is shorter than the "0x" it is assumed to start
   * with, so taking the rest of it throws and nothing catches that.
   */
  lemma BreakShortArgumentThrows()
    ensures ParseCommand("b 1") == Err(ArgumentTooShort)
    ensures IsUncaughtException(ArgumentTooShort)
  {
    var args := ["b", "1"];
    assert Tokens("b 1", ' ') == args by {
      TwoTokens("b", "1");
      assert "b" + " " + "1" == "b 1";
    }
    assert Route(args[0]) == BreakVerb by {
      RouteByPrefix("b");
    }
    assert HexArgument(args[1], LongMax) == Err(ArgumentTooShort);
  }

  /** A line whose tokens route to `break` with an address argument sets a breakpoint there. */
  lemma BreakLine(line: string, args: seq<string>, a: nat)
    requires Tokens(line, ' ') == args && |args| >= 2
    requires Route(args[0]) == BreakVerb && HexArgument(args[1], LongMax) == Ok(a)
    ensures ParseCommand(line) == Ok(SetBreakpoint(a))
  {
  }

  /** The digits "0100" read as 0x100; the leading zero adds nothing. */
  lemma ParseLeadingZero()
    ensures ParseHex("0100", LongMax) == Ok(0x100)
  {
    assert DigitRun("0100") == 4 by {
      DigitRunOfDigits("0100", []);
      assert "0100" + [] == "0100";
    }
    assert "0100"[..4] == "0100";
    assert HexValue("0") == 0 by {
      assert "0"[..0] == "";
    }
    assert HexValue("01") == 1 by {
      assert "01"[..1] == "0";
    }
    assert HexValue("010") == 0x10 by {
      assert "010"[..2] == "01";
    }
    assert HexValue("0100") == 0x100 by {
      assert "0100"[..3] == "010";
    }
  }

  /** "continue" is not accepted: it is longer than "cont". */
  lemma ContinueSpelledOutUnknown()
    ensures ParseCommand("continue") == Err(UnknownCommand)
  {
    var args := ["continue"];
    assert Tokens("continue", ' ') == args by {
      TokensOfJoin(args, ' ');
    }
    assert Route(args[0]) == UnknownVerb by {
      RouteByPrefix("continue");
    }
  }

  /** "delete" is not accepted: it is longer than "del". */
  lemma DeleteSpelledOutUnknown()
    ensures ParseCommand("delete 0x10") == Err(UnknownCommand)
  {
    var args := ["delete", "0x10"];
    assert Tokens("delete 0x10", ' ') == args by {
      TwoTokens("delete", "0x10");
      assert "delete" + " " + "0x10" == "delete 0x10";
    }
    assert Route(args[0]) == UnknownVerb by {
      RouteByPrefix("delete");
    }
  }

  /** "q" is the one-letter quit. */
  lemma QuitLetter()
    ensures ParseCommand("q") == Ok(Quit)
  {
    var args := ["q"];
    assert Tokens("q", ' ') == args by {
      TokensOfJoin(args, ' ');
    }
    assert Route(args[0]) == QuitVerb by {
      RouteByPrefix("q");
    }
    assert Dispatch(args) == Ok(Quit);
  }
}
