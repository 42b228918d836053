/**
 * The register lookups of src/debugger.cpp: linear `std::find_if` searches
 * of the descriptor table by identity, by display name and by DWARF number.
 */
module RegisterLookup {
  import opened Registers
  import opened Search

  // ---------------------------------------------------------------------
  // Lookups (debugger.cpp: the find_if searches)
  // ---------------------------------------------------------------------

  function ByReg(r: Reg): RegDescriptor -> bool
  {
    (d: RegDescriptor) => d.r == r
  }

  function ByName(name: string): RegDescriptor -> bool
  {
    (d: RegDescriptor) => d.name == name
  }

  function ByDwarf(n: int): RegDescriptor -> bool
  {
    (d: RegDescriptor) => d.dwarf == n
  }

  predicate IsRegisterName(name: string)
  {
    exists i :: 0 <= i < |Descriptors| && Descriptors[i].name == name
  }

  predicate IsDwarfNumber(n: int)
  {
    exists i :: 0 <= i < |Descriptors| && Descriptors[i].dwarf == n
  }

  /** The identity search always stops at the register's reference slot. */
  lemma FindByReg(r: Reg)
    ensures FindFirst(Descriptors, ByReg(r)) == Slot(r)
  {
    var i := FindFirst(Descriptors, ByReg(r));
    var k := Slot(r);
    assert k < |Descriptors| && ByReg(r)(Descriptors[k]) by {
      SlotHoldsRegister(r);
    }
    // The search cannot pass position k, whose entry matches.
    assert i < |Descriptors| && Descriptors[i].r == r;
    PositionIsSlot(i);
  }

  /** A name in the table is found before the end iterator. */
  lemma FindByNameSucceeds(name: string)
    requires IsRegisterName(name)
    ensures FindFirst(Descriptors, ByName(name)) < |Descriptors|
  {
    var k :| 0 <= k < |Descriptors| && Descriptors[k].name == name;
    assert ByName(name)(Descriptors[k]);
  }

  /** A DWARF number in the table is found before the end iterator. */
  lemma FindByDwarfSucceeds(n: int)
    requires IsDwarfNumber(n)
    ensures FindFirst(Descriptors, ByDwarf(n)) < |Descriptors|
  {
    var k :| 0 <= k < |Descriptors| && Descriptors[k].dwarf == n;
    assert ByDwarf(n)(Descriptors[k]);
  }

  /**
   * The position of the descriptor whose identity is `r`: where the search
   * in `get_register_value`, `set_register_value` and `get_register_name`
   * stops (`FindByReg`).  Every identity is in the table, so the search
   * never reaches the end.
   */
  function SlotOf(r: Reg): (i: nat)
    ensures i < NRegisters && Descriptors[i].r == r
  {
    SlotHoldsRegister(r);
    Slot(r)
  }

  /** The search for the register at position `i` stops at `i`. */
  lemma SlotOfPosition(i: int)
    requires 0 <= i < |Descriptors|
    ensures SlotOf(Descriptors[i].r) == i
  {
    PositionIsSlot(i);
  }

  /** `get_register_name`: the display name on the entry of `r`. */
  function RegisterName(r: Reg): (name: string)
    ensures IsRegisterName(name)
    ensures exists i :: 0 <= i < |Descriptors| && Descriptors[i].r == r && Descriptors[i].name == name
  {
    Descriptors[SlotOf(r)].name
  }

  /**
   * `get_register_from_name`: the identity of the first entry named `name`.
   * The source dereferences the end iterator for an unknown name, so a known
   * name is the caller's obligation.
   */
  function RegisterFromName(name: string): (r: Reg)
    requires IsRegisterName(name)
    ensures Descriptors[SlotOf(r)].name == name
    ensures forall j :: 0 <= j < SlotOf(r) ==> Descriptors[j].name != name
  {
    FindByNameSucceeds(name);
    var i := FindFirst(Descriptors, ByName(name));
    SlotOfPosition(i);
    Descriptors[i].r
  }

  /**
   * The search of `get_register_value_from_dwarf_register`: the identity of
   * the first entry whose DWARF number is `n`.  An unknown number
   * dereferences the end iterator in the source, hence the precondition.
   */
  function RegisterFromDwarf(n: int): (r: Reg)
    requires IsDwarfNumber(n)
    ensures Descriptors[SlotOf(r)].dwarf == n
    ensures forall j :: 0 <= j < SlotOf(r) ==> Descriptors[j].dwarf != n
  {
    FindByDwarfSucceeds(n);
    var i := FindFirst(Descriptors, ByDwarf(n));
    SlotOfPosition(i);
    Descriptors[i].r
  }
}
