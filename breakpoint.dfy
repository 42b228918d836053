/**
 * Software breakpoints (src/breakpoint.cpp): patch the `int3` opcode into
 * the low byte of the word at an address, and put the saved byte back.
 */
module Breakpoints {
  import opened Words
  import opened Target

  class Breakpoint {
    /** `_pid`: the process whose memory is patched. */
    const target: Tracee
    /** `_addr`. */
    const addr: Address
    /** `_enabled`. */
    var enabled: bool
    /** `_saved_data`: the original low byte, valid while enabled. */
    var savedData: Byte

    /** A new breakpoint is disabled, and its saved byte is value-initialised to 0. */
    constructor (target: Tracee, addr: Address)
      ensures this.target == target && this.addr == addr
      ensures !enabled && savedData == 0
    {
      this.target := target;
      this.addr := addr;
      enabled := false;
      savedData := 0;
    }

    /**
     * Saves the low byte of the word at `addr` and writes the word back
     * with `int3` as its low byte.  Nothing else in the target changes.
     */
    method Enable()
      modifies this, target
      ensures IsEnabled()
      ensures savedData == LowByte(old(target.PeekData(addr)))
      ensures target.memory == Poke(old(target.memory), addr, WithLowByte(old(target.PeekData(addr)), Int3))
      ensures target.regs == old(target.regs)
    {
      var data := target.PeekData(addr);
      savedData := LowByte(data);
      var dataWithInt3 := WithLowByte(data, Int3);
      target.PokeData(addr, dataWithInt3);
      enabled := true;
    }

    /**
     * Re-reads the word at `addr` and writes it back with the saved byte as
     * its low byte.  Nothing else in the target changes.
     */
    method Disable()
      modifies this, target
      ensures !IsEnabled()
      ensures savedData == old(savedData)
      ensures target.memory == Poke(old(target.memory), addr, WithLowByte(old(target.PeekData(addr)), savedData))
      ensures target.regs == old(target.regs)
    {
      var data := target.PeekData(addr);
      var restoredData := WithLowByte(data, savedData);
      target.PokeData(addr, restoredData);
      enabled := false;
    }

    /** `is_enabled`. */
    function IsEnabled(): (e: bool)
      reads this
      ensures e <==> enabled
    {
      enabled
    }

    /** `get_address`. */
    function GetAddress(): (a: Address)
      ensures a == addr
    {
      addr
    }
  }

  // -----------------------------------------------------------------------
  // Laws of enable and disable over the target memory
  // -----------------------------------------------------------------------

  /** The memory `enable` leaves behind. */
  function Enabled(memory: map<Address, Word>, a: Address): map<Address, Word>
  {
    Poke(memory, a, WithLowByte(Peek(memory, a), Int3))
  }

  /** The memory `disable` leaves behind, given the saved byte. */
  function Disabled(memory: map<Address, Word>, a: Address, saved: Byte): map<Address, Word>
  {
    Poke(memory, a, WithLowByte(Peek(memory, a), saved))
  }

  /**
   * After `enable` the word at a mapped address has low byte `int3` and the
   * bits 8..63 it had before; every other address is untouched.
   */
  lemma EnablePatchesOnlyLowByte(memory: map<Address, Word>, a: Address, b: Address)
    ensures Enabled(memory, a).Keys == memory.Keys
    ensures a in memory ==>
      (LowByte(Enabled(memory, a)[a]) == Int3 && HighBits(Enabled(memory, a)[a]) == HighBits(memory[a]))
    ensures b != a && b in memory ==> Enabled(memory, a)[b] == memory[b]
  {
  }

  /**
   * Round trip: if nothing writes the address in between, `disable` after
   * `enable` leaves the whole memory exactly as it was, mapped or not.
   */
  lemma EnableThenDisableRestores(memory: map<Address, Word>, a: Address)
    ensures Disabled(Enabled(memory, a), a, LowByte(Peek(memory, a))) == memory
  {
    if a in memory {
      var w := memory[a];
      var patched := Enabled(memory, a);
      assert Peek(patched, a) == WithLowByte(w, Int3);
      WithLowByteTwice(w, Int3, LowByte(w));
      WithOwnLowByte(w);
      assert Disabled(patched, a, LowByte(w)) == memory[a := w];
    }
  }

  /**
   * The hazard of enabling twice: the second `enable` saves the `int3` byte
   * the first one wrote, so `disable` leaves `int3` in memory.
   */
  lemma EnableTwiceLeavesTrap(memory: map<Address, Word>, a: Address)
    requires a in memory
    ensures var once := Enabled(memory, a);
      LowByte(Disabled(Enabled(once, a), a, LowByte(Peek(once, a)))[a]) == Int3
  {
  }

  /**
   * `disable` without a prior `enable` writes the zero-initialised saved
   * byte over the original low byte.
   */
  lemma DisableBeforeEnableWritesZero(memory: map<Address, Word>, a: Address)
    requires a in memory
    ensures LowByte(Disabled(memory, a, 0)[a]) == 0
  {
  }

  /** The class follows these laws: enable then disable on one object restores the target memory. */
  method EnableDisable(bp: Breakpoint)
    modifies bp, bp.target
    ensures bp.target.memory == old(bp.target.memory)
    ensures bp.target.regs == old(bp.target.regs)
    ensures !bp.enabled
  {
    ghost var before := bp.target.memory;
    bp.Enable();
    assert bp.target.memory == Enabled(before, bp.addr);
    bp.Disable();
    EnableThenDisableRestores(before, bp.addr);
  }
}
