/** Eight cores over one shared memory. */
module CpuManager {
  import opened Bits
  import opened Processes
  import opened Scheduler
  import opened CodeLoader

  const CORE_COUNT := 8
  const MEMORY_SIZE := 12 * 1024 * 1024 * 1024

  /** Executing an instruction never resizes the memory. */
  ghost predicate KeepsSize(exec: Exec) { forall c: Core, m: seq<byte> :: |exec(c, m).1| == |m| }

  class CpuManager {
    /** What one instruction does to a core and to memory. */
    const exec: Exec
    var cores: seq<Core>
    var memory: seq<byte>

    ghost predicate Valid()
      reads this
    {
      |cores| == CORE_COUNT && |memory| == MEMORY_SIZE && KeepsSize(exec)
    }

    constructor (exec: Exec, cores: seq<Core>)
      requires |cores| == CORE_COUNT && KeepsSize(exec)
      ensures Valid() && this.exec == exec && this.cores == cores
      ensures forall i :: 0 <= i < MEMORY_SIZE ==> memory[i] == 0
    {
      this.exec, this.cores := exec, cores;
      memory := seq(MEMORY_SIZE, _ => 0);
    }

    method Step(i: nat)
      requires Valid() && i < CORE_COUNT
      modifies `cores, `memory
      ensures Valid()
      ensures cores == old(cores)[i := exec(old(cores[i]), old(memory)).0]
      ensures memory == exec(old(cores[i]), old(memory)).1
    {
      var r := exec(cores[i], memory);
      cores := cores[i := r.0];
      memory := r.1;
    }

    method SetX(i: nat, r: nat, value: u64)
      requires Valid() && i < CORE_COUNT && r < 31
      modifies `cores
      ensures Valid() && cores == old(cores)[i := SetRegister(old(cores[i]), r, value)]
    {
      cores := cores[i := SetRegister(cores[i], r, value)];
    }

    /** Load a thread's context into a core, register by register. */
    method LoadContext(i: nat, context: CpuContext)
      requires Valid() && i < CORE_COUNT
      modifies `cores
      ensures Valid() && cores == old(cores)[i := Load(old(cores[i]), context)]
      ensures cores[i].pc == context.pc && cores[i].sp == context.sp && cores[i].x == context.x
      ensures cores[i].hidden == old(cores[i]).hidden
    {
      cores := cores[i := cores[i].(pc := context.pc)];
      cores := cores[i := cores[i].(sp := context.sp)];
      for r := 0 to 31
        invariant Valid()
        invariant forall k :: 0 <= k < CORE_COUNT && k != i ==> cores[k] == old(cores[k])
        invariant cores[i] == old(cores[i]).(x := cores[i].x, sp := context.sp, pc := context.pc)
        invariant cores[i].x[..r] == context.x[..r]
      {
        SetX(i, r, context.x[r]);
      }
      assert cores[i].x == cores[i].x[..31] == context.x[..31] == context.x;
    }

    /** The context a core leaves behind, written over a thread's old one. */
    method SaveContext(i: nat, context: CpuContext) returns (saved: CpuContext)
      requires i < |cores|
      ensures saved == context.(x := cores[i].x, sp := cores[i].sp, pc := cores[i].pc)
    {
      saved := context.(pc := cores[i].pc);
      saved := saved.(sp := cores[i].sp);
      for r := 0 to 31
        invariant saved == context.(x := saved.x, sp := cores[i].sp, pc := cores[i].pc)
        invariant saved.x[..r] == cores[i].x[..r]
      {
        saved := saved.(x := saved.x[r := cores[i].x[r]]);
      }
      assert saved.x == saved.x[..31] == cores[i].x[..31] == cores[i].x;
    }

    method WriteWord(at: u64, word: u32)
      requires Valid()
      modifies `memory
      ensures Valid() && memory == WriteU32(old(memory), at, word)
    {
      memory := WriteU32(memory, at, word);
    }

    method ReadWord(at: u64) returns (word: u32)
      requires Valid()
      ensures word == ReadU32(memory, at)
    {
      word := ReadU32(memory, at);
    }

    /** Write one byte by reading, changing and writing its word. */
    method WriteByte(offset: u64, b: byte)
      requires Valid()
      modifies `memory
      ensures Valid() && memory == ByteWritten(old(memory), offset, b)
    {
      Align(offset);
      var aligned := And(offset, 0xFFFF_FFFF_FFFF_FFFC);
      var j := And(offset, 3);
      var word := ReadWord(aligned);
      var changed := WithByte(word, j, b);
      ByteByWord(memory, aligned, j, b, changed);
      WriteWord(aligned, changed);
    }

    /** Load the last bytes, which do not fill a word, on top of the words before them. */
    method LoadTail(vaddr: u64, code: seq<byte>, words: nat, ghost before: seq<byte>)
      requires Valid() && vaddr + |code| <= 0x1_0000_0000_0000_0000
      requires words % 4 == 0 && words <= |code| < words + 4
      requires |before| == MEMORY_SIZE && memory == Loaded(before, vaddr, code[..words])
      modifies `memory
      ensures Valid() && memory == Loaded(before, vaddr, code)
    {
      for k := words to |code|
        invariant Valid() && memory == Loaded(before, vaddr, code[..k])
      {
        LoadByte(before, vaddr, code, k);
        WriteByte(vaddr + k, code[k]);
      }
      assert code[..|code|] == code;
    }

    /** Load code at any address, in chunks of a word. */
    method LoadChunks(vaddr: u64, code: seq<byte>)
      requires Valid() && vaddr + |code| <= 0x1_0000_0000_0000_0000
      modifies `memory
      ensures Valid() && memory == Loaded(old(memory), vaddr, code)
    {
      ghost var before := memory;
      var k := 0;
      while k + 4 <= |code|
        invariant Valid() && k <= |code| && k % 4 == 0
        invariant memory == Loaded(before, vaddr, code[..k])
      {
        LoadWord(before, vaddr, code, k);
        WriteWord(vaddr + k, LittleEndian(code[k..k + 4]));
        k := k + 4;
      }
      LoadTail(vaddr, code, k, before);
    }
  }

  function SetRegister(core: Core, r: nat, value: u64): Core
    requires r < 31
  {
    core.(x := core.x[r := value])
  }
}
