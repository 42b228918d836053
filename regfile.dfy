/**
 * The register file of src/debugger.cpp: single registers read and written
 * through the whole 27-word register snapshot, at the slot the descriptor
 * table gives them, and the laws of the table lookups.
 */
module RegisterFile {
  import opened Registers
  import opened RegisterLookup

  // ---------------------------------------------------------------------
  // Lemmas about the lookups
  // ---------------------------------------------------------------------

  /** Distinct identities occupy distinct slots. */
  lemma SlotOfInjective(r1: Reg, r2: Reg)
    ensures SlotOf(r1) == SlotOf(r2) <==> r1 == r2
  {
  }

  /** Name lookup inverts `get_register_name`, in both directions. */
  lemma NameRoundTrip(r: Reg, name: string)
    ensures RegisterFromName(RegisterName(r)) == r
    ensures IsRegisterName(name) ==> RegisterName(RegisterFromName(name)) == name
  {
    var r' := RegisterFromName(RegisterName(r));
    NamesDistinct();
    assert Descriptors[SlotOf(r')].name == Descriptors[SlotOf(r)].name;
    assert SlotOf(r') == SlotOf(r);
  }

  /**
   * Looking a register up by its own DWARF number gives it back, for every
   * register with a DWARF number other than -1.
   */
  lemma DwarfRoundTrip(r: Reg)
    requires Descriptors[SlotOf(r)].dwarf != -1
    ensures RegisterFromDwarf(Descriptors[SlotOf(r)].dwarf) == r
  {
    var n := Descriptors[SlotOf(r)].dwarf;
    var r' := RegisterFromDwarf(n);
    DwarfNumbersDistinctExceptMinusOne();
    assert SlotOf(r') == SlotOf(r);
  }

  /** DWARF -1 is shared, and resolves to the first entry carrying it, `orig_rax`. */
  lemma DwarfMinusOneIsOrigRax()
    ensures IsDwarfNumber(-1)
    ensures RegisterFromDwarf(-1) == OrigRax
  {
    assert Descriptors[15] == RegDescriptor(OrigRax, -1, "orig_rax");
    var k := SlotOf(RegisterFromDwarf(-1));
    // Entry k carries -1, so it is entry 15 or 16; the search stops at the first.
    MinusOneEntries(k);
    assert k <= 15;
  }

  /** Because of that, `rip` cannot be reached by DWARF number at all. */
  lemma RipUnreachableByDwarf(n: int)
    requires IsDwarfNumber(n)
    ensures RegisterFromDwarf(n) != Rip
  {
    SlotOfPosition(16);
    assert Descriptors[16].r == Rip && Descriptors[15].dwarf == Descriptors[16].dwarf;
  }

  // ---------------------------------------------------------------------
  // Single registers over the whole snapshot
  // ---------------------------------------------------------------------

  /**
   * The value `get_register_value` reads: the snapshot word at the slot of
   * `r`'s descriptor.
   */
  function RegisterValue(regs: seq<bv64>, r: Reg): bv64
    requires |regs| == NRegisters
  {
    regs[SlotOf(r)]
  }

  /**
   * The snapshot `set_register_value` writes back: the fetched snapshot with
   * the word at the slot of `r`'s descriptor replaced by `v`.
   */
  function WithRegister(regs: seq<bv64>, r: Reg, v: bv64): (regs': seq<bv64>)
    requires |regs| == NRegisters
    ensures |regs'| == NRegisters
  {
    regs[SlotOf(r) := v]
  }

  /** Reading a register after writing it gives the written value. */
  lemma ReadAfterWrite(regs: seq<bv64>, r: Reg, v: bv64)
    requires |regs| == NRegisters
    ensures RegisterValue(WithRegister(regs, r, v), r) == v
  {
  }

  /** Writing a register leaves every other register as it was. */
  lemma WriteKeepsOthers(regs: seq<bv64>, r: Reg, r': Reg, v: bv64)
    requires |regs| == NRegisters
    requires r' != r
    ensures RegisterValue(WithRegister(regs, r, v), r') == RegisterValue(regs, r')
  {
  }

  /** Writing back the value just read leaves the snapshot as it was. */
  lemma WriteReadValueIsIdentity(regs: seq<bv64>, r: Reg)
    requires |regs| == NRegisters
    ensures WithRegister(regs, r, RegisterValue(regs, r)) == regs
  {
  }

  /**
   * Every snapshot word belongs to exactly one register, so two snapshots
   * that agree on every register are the same snapshot.
   */
  lemma SnapshotDeterminedByRegisters(a: seq<bv64>, b: seq<bv64>)
    requires |a| == NRegisters && |b| == NRegisters
    requires forall r: Reg :: RegisterValue(a, r) == RegisterValue(b, r)
    ensures a == b
  {
    forall i | 0 <= i < NRegisters ensures a[i] == b[i] {
      SlotOfPosition(i);
      assert RegisterValue(a, Descriptors[i].r) == RegisterValue(b, Descriptors[i].r);
    }
  }

  /**
   * `get_register_value_from_dwarf_register` reads the same word as reading
   * the register itself, for every register with its own DWARF number.
   */
  lemma DwarfReadIsRegisterRead(regs: seq<bv64>, r: Reg)
    requires |regs| == NRegisters
    requires Descriptors[SlotOf(r)].dwarf != -1
    ensures RegisterValue(regs, RegisterFromDwarf(Descriptors[SlotOf(r)].dwarf)) == RegisterValue(regs, r)
  {
    DwarfRoundTrip(r);
  }
}
