/**
 * The traced process as the debugger sees it through ptrace: word-addressed
 * memory and the 27-word register snapshot.  The kernel calls themselves
 * are not modelled; PEEKDATA, POKEDATA, GETREGS, SETREGS and CONT become
 * reads and writes of this state.
 */
module Target {
  import opened Words
  import opened Registers

  /** `std::intptr_t`: a signed word-sized address. */
  type Address = int

  /**
   * What PTRACE_PEEKDATA returns when it fails, e.g. on an unmapped address:
   * -1, i.e. all 64 bits set.  The debugger never checks for it.
   */
  const PeekFailed: Word := 0xFFFF_FFFF_FFFF_FFFF

  /** PTRACE_PEEKDATA over a memory whose domain is the mapped addresses. */
  function Peek(memory: map<Address, Word>, a: Address): Word
  {
    if a in memory then memory[a] else PeekFailed
  }

  /**
   * PTRACE_POKEDATA: stores `w` at a mapped address; at an unmapped one the
   * call fails and memory is unchanged.
   */
  function Poke(memory: map<Address, Word>, a: Address, w: Word): (m': map<Address, Word>)
    ensures m'.Keys == memory.Keys
    ensures a in memory ==> m'[a] == w
    ensures forall b :: b in memory && b != a ==> m'[b] == memory[b]
  {
    if a in memory then memory[a := w] else memory
  }

  /** The traced child process, named in the source by its pid. */
  class Tracee {
    const pid: int
    var memory: map<Address, Word>
    var regs: seq<Word>

    ghost predicate Valid()
      reads this
    {
      |regs| == NRegisters
    }

    constructor (pid: int, memory: map<Address, Word>, regs: seq<Word>)
      requires |regs| == NRegisters
      ensures Valid()
      ensures this.pid == pid && this.memory == memory && this.regs == regs
    {
      this.pid := pid;
      this.memory := memory;
      this.regs := regs;
    }

    /** PTRACE_PEEKDATA. */
    function PeekData(a: Address): (w: Word)
      reads this
      ensures a in memory ==> w == memory[a]
      ensures a !in memory ==> w == PeekFailed
    {
      Peek(memory, a)
    }

    /** PTRACE_POKEDATA. */
    method PokeData(a: Address, w: Word)
      modifies this
      ensures memory == Poke(old(memory), a, w)
      ensures regs == old(regs)
    {
      memory := Poke(memory, a, w);
    }

    /** PTRACE_SETREGS: the whole snapshot at once. */
    method SetRegs(s: seq<Word>)
      requires |s| == NRegisters
      modifies this
      ensures Valid()
      ensures regs == s && memory == old(memory)
    {
      regs := s;
    }

    /**
     * PTRACE_CONT followed by waitpid: the child runs until it next stops,
     * and may have changed any memory word and any register by then.
     */
    method ContinueAndWait()
      modifies this
      ensures Valid()
    {
      var m: map<Address, Word> := *;
      assert |seq(NRegisters, _ => 0 as Word)| == NRegisters;
      var s: seq<Word> :| |s| == NRegisters;
      memory, regs := m, s;
    }
  }
}
