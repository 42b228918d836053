/**
 * The x86-64 register descriptor table (src/registers.h).
 *
 * Each descriptor names a register identity, its DWARF register number
 * (-1 when DWARF defines none) and its display name.  A descriptor's
 * position in the table is the index of that register's 64-bit word in the
 * kernel's whole-register snapshot (`user_regs_struct`), which is how the
 * debugger reads and writes single registers.
 */
module Registers {

  /** The `reg` enumeration, in declaration order. */
  datatype Reg =
    | Rax | Rbx | Rcx | Rdx
    | Rdi | Rsi | Rbp | Rsp
    | R8  | R9  | R10 | R11
    | R12 | R13 | R14 | R15
    | Rip | Rflags | Cs
    | OrigRax | FsBase
    | GsBase
    | Fs | Gs | Ss | Ds | Es

  const NRegisters: nat := 27

  datatype RegDescriptor = RegDescriptor(r: Reg, dwarf: int, name: string)

  /**
   * Entry `i` of `g_register_descriptors`, the 27-element array of
   * registers.h.  It is a chain of cases rather than one sequence literal
   * because indexing a literal of 27 records with a symbolic index is
   * costly for the verifier.
   */
  function Entry(i: nat): (e: RegDescriptor)
    requires i < NRegisters
    ensures ' ' !in e.name
  {
    if i == 0 then RegDescriptor(R15, 15, "r15")
    else if i == 1 then RegDescriptor(R14, 14, "r14")
    else if i == 2 then RegDescriptor(R13, 13, "r13")
    else if i == 3 then RegDescriptor(R12, 12, "r12")
    else if i == 4 then RegDescriptor(Rbp, 6, "rbp")
    else if i == 5 then RegDescriptor(Rbx, 3, "rbx")
    else if i == 6 then RegDescriptor(R11, 11, "r11")
    else if i == 7 then RegDescriptor(R10, 10, "r10")
    else if i == 8 then RegDescriptor(R9, 9, "r9")
    else if i == 9 then RegDescriptor(R8, 8, "r8")
    else if i == 10 then RegDescriptor(Rax, 0, "rax")
    else if i == 11 then RegDescriptor(Rcx, 2, "rcx")
    else if i == 12 then RegDescriptor(Rdx, 1, "rdx")
    else if i == 13 then RegDescriptor(Rsi, 4, "rsi")
    else if i == 14 then RegDescriptor(Rdi, 5, "rdi")
    else if i == 15 then RegDescriptor(OrigRax, -1, "orig_rax")
    else if i == 16 then RegDescriptor(Rip, -1, "rip")
    else if i == 17 then RegDescriptor(Cs, 51, "cs")
    else if i == 18 then RegDescriptor(Rflags, 49, "eflags")
    else if i == 19 then RegDescriptor(Rsp, 7, "rsp")
    else if i == 20 then RegDescriptor(Ss, 52, "ss")
    else if i == 21 then RegDescriptor(FsBase, 58, "fs_base")
    else if i == 22 then RegDescriptor(GsBase, 59, "gs_base")
    else if i == 23 then RegDescriptor(Ds, 53, "ds")
    else if i == 24 then RegDescriptor(Es, 50, "es")
    else if i == 25 then RegDescriptor(Fs, 54, "fs")
    else RegDescriptor(Gs, 55, "gs")
  }

  /** The entries in table order. */
  function Table(): (t: seq<RegDescriptor>)
    ensures |t| == NRegisters
    ensures forall i :: 0 <= i < NRegisters ==> t[i] == Entry(i)
  {
    seq(NRegisters, i requires 0 <= i < NRegisters => Entry(i))
  }

  /** `g_register_descriptors`. */
  const Descriptors: seq<RegDescriptor> := Table()

  // ---------------------------------------------------------------------
  // Facts about the table
  // ---------------------------------------------------------------------

  /**
   * The snapshot slot of each register, written out independently of the
   * table as a reference layout of `user_regs_struct`.
   */
  function Slot(r: Reg): nat
  {
    match r
    case R15 => 0
    case R14 => 1
    case R13 => 2
    case R12 => 3
    case Rbp => 4
    case Rbx => 5
    case R11 => 6
    case R10 => 7
    case R9 => 8
    case R8 => 9
    case Rax => 10
    case Rcx => 11
    case Rdx => 12
    case Rsi => 13
    case Rdi => 14
    case OrigRax => 15
    case Rip => 16
    case Cs => 17
    case Rflags => 18
    case Rsp => 19
    case Ss => 20
    case FsBase => 21
    case GsBase => 22
    case Ds => 23
    case Es => 24
    case Fs => 25
    case Gs => 26
  }

  /** The table has `n_registers` entries. */
  lemma TableSize()
    ensures |Descriptors| == NRegisters == 27
  {
  }

  /** Every register sits at its reference slot in the table. */
  lemma SlotHoldsRegister(r: Reg)
    ensures Slot(r) < |Descriptors| && Descriptors[Slot(r)].r == r
  {
    match r
    case R15 =>
    case R14 =>
    case R13 =>
    case R12 =>
    case Rbp =>
    case Rbx =>
    case R11 =>
    case R10 =>
    case R9 =>
    case R8 =>
    case Rax =>
    case Rcx =>
    case Rdx =>
    case Rsi =>
    case Rdi =>
    case OrigRax =>
    case Rip =>
    case Cs =>
    case Rflags =>
    case Rsp =>
    case Ss =>
    case FsBase =>
    case GsBase =>
    case Ds =>
    case Es =>
    case Fs =>
    case Gs =>
  }

  /** The register at each table position has that position as its slot. */
  lemma PositionIsSlot(i: int)
    requires 0 <= i < |Descriptors|
    ensures Slot(Descriptors[i].r) == i
  {
  }

  /**
   * The table agrees with the reference layout in both directions; together
   * the two halves say every enumerator appears exactly once.
   */
  lemma TableMatchesLayout()
    ensures forall r: Reg :: Slot(r) < |Descriptors| && Descriptors[Slot(r)].r == r
    ensures forall i :: 0 <= i < |Descriptors| ==> Slot(Descriptors[i].r) == i
  {
    forall r: Reg ensures Slot(r) < |Descriptors| && Descriptors[Slot(r)].r == r {
      SlotHoldsRegister(r);
    }
    forall i | 0 <= i < |Descriptors| ensures Slot(Descriptors[i].r) == i {
      PositionIsSlot(i);
    }
  }

  /** Every enumerator appears in exactly one entry. */
  lemma EachRegisterOnce(r: Reg)
    ensures exists i :: 0 <= i < |Descriptors| && Descriptors[i].r == r
    ensures forall i, j ::
      0 <= i < |Descriptors| && 0 <= j < |Descriptors| && Descriptors[i].r == r && Descriptors[j].r == r
      ==> i == j
  {
    SlotHoldsRegister(r);
    forall i, j |
      0 <= i < |Descriptors| && 0 <= j < |Descriptors| && Descriptors[i].r == r && Descriptors[j].r == r
      ensures i == j
    {
      PositionIsSlot(i);
      PositionIsSlot(j);
    }
  }

  /** Display names are pairwise distinct. */
  lemma NamesDistinct()
    ensures forall i, j :: 0 <= i < j < |Descriptors| ==> Descriptors[i].name != Descriptors[j].name
  {
  }

  /**
   * DWARF numbers are pairwise distinct, except that -1 is shared by
   * `orig_rax` (slot 15) and `rip` (slot 16).
   */
  lemma DwarfNumbersDistinctExceptMinusOne()
    ensures forall i, j ::
      0 <= i < j < |Descriptors| && Descriptors[i].dwarf == Descriptors[j].dwarf
      ==> i == 15 && j == 16 && Descriptors[i].dwarf == -1
  {
  }

  /** Only `orig_rax` (entry 15) and `rip` (entry 16) carry DWARF number -1. */
  lemma MinusOneEntries(i: int)
    requires 0 <= i < |Descriptors| && Descriptors[i].dwarf == -1
    ensures i == 15 || i == 16
  {
    assert Descriptors[i] == Entry(i);
  }

  /** `rflags` is displayed as "eflags"; no entry is named "rflags". */
  lemma FlagsNamedEflags()
    ensures Descriptors[Slot(Rflags)].name == "eflags"
    ensures forall i :: 0 <= i < |Descriptors| ==> Descriptors[i].name != "rflags"
  {
  }

  /** No display name contains a space, so each is a single command token. */
  lemma NamesHaveNoSpace()
    ensures forall i :: 0 <= i < |Descriptors| ==> ' ' !in Descriptors[i].name
  {
  }
}
