/** The implemented part of the SM86 instruction set: AL2P, NOP and KILL on 254 general registers. */
module Sass {
  import opened Bits
  import opened Wrappers
  import opened Slices

  type u128 = n: nat | n < 0x1_0000_0000_0000_0000_0000_0000_0000_0000

  const REGISTERS := 254
  const ZERO_REGISTER := 255

  const AL2P := 0x920
  const NOP := 0x918
  const KILL := 0x95b

  /** The 13-bit opcode: bit 91, then bits 11 to 0. */
  function Opcode(w: u128): nat { BitField(w, 91, 1) * 4096 + BitField(w, 0, 12) }

  function Rd(w: u128): (r: nat) ensures r < 256 { Pow2Values(); BitField(w, 16, 8) }

  function Ra(w: u128): (r: nat) ensures r < 256 { Pow2Values(); BitField(w, 24, 8) }

  function Offset(w: u128): (r: u32) ensures r < 2048 { Pow2Values(); BitField(w, 40, 11) }

  function Bop(w: u128): nat { BitField(w, 74, 2) }

  predicate IsRegister(r: nat) { r < REGISTERS || r == ZERO_REGISTER }

  /** A decoded instruction. Predicates and scheduling fields play no part. */
  datatype Op = Al2p(rd: nat, ra: nat, offset: u32) | Nop | Kill

  predicate ValidOp(op: Op) { op.Al2p? ==> IsRegister(op.rd) && IsRegister(op.ra) && op.offset < 2048 }

  /** The instructions that are implemented and do not make the translator panic. */
  function Decode(w: u128): (op: Option<Op>)
    ensures op.Some? ==> ValidOp(op.value) && Opcode(w) in {0x918, 0x920, 0x95b}
    ensures Opcode(w) == 0x918 ==> op == Some(Nop)
    ensures Opcode(w) == 0x95b ==> op == Some(Kill)
    ensures Opcode(w) == 0x920 ==> op.None? || op.value.Al2p?
  {
    if Opcode(w) == NOP then Some(Nop)
    else if Opcode(w) == KILL then Some(Kill)
    else if Opcode(w) == AL2P && IsRegister(Rd(w)) && IsRegister(Ra(w)) && Bop(w) == 0
    then Some(Al2p(Rd(w), Ra(w), Offset(w)))
    else None
  }

  /** Opcodes for which the dispatch chain has a branch: at least those of the implemented instructions. */
  type Branches = b: set<nat> | AL2P in b && NOP in b && KILL in b witness {AL2P, NOP, KILL}

  /** The word goes through the translator without a panic: it is translated, or no branch of the chain
      tests for its opcode and nothing happens. */
  predicate Passes(w: u128, branches: Branches) { Decode(w).Some? || Opcode(w) !in branches }

  ghost predicate AllPass(words: seq<u128>, branches: Branches) {
    forall i :: 0 <= i < |words| ==> Passes(words[i], branches)
  }

  /** The program a list of words stands for: the words that decode, in order, without those passed over. */
  function Program(words: seq<u128>): (ops: seq<Op>)
    ensures AllValid(ops) && |ops| <= |words|
  {
    if words == [] then []
    else
      var op := Decode(words[|words| - 1]);
      Program(words[..|words| - 1]) + if op.Some? then [op.value] else []
  }

  lemma ProgramSnoc(words: seq<u128>, w: u128)
    ensures Program(words + [w]) == Program(words) + if Decode(w).Some? then [Decode(w).value] else []
  {
    assert (words + [w])[..|words|] == words;
  }

  /** A kill stops execution for good. */
  datatype Shader = Shader(regs: seq<u32>, killed: bool)

  predicate Valid(s: Shader) { |s.regs| == REGISTERS }

  function Read(s: Shader, r: nat): u32
    requires Valid(s) && IsRegister(r)
  {
    if r == ZERO_REGISTER then 0 else s.regs[r]
  }

  function Write(s: Shader, r: nat, v: u32): (t: Shader)
    requires Valid(s) && IsRegister(r)
    ensures Valid(t)
  {
    if r == ZERO_REGISTER then s else s.(regs := s.regs[r := v])
  }

  function Step(op: Op, s: Shader): (t: Shader)
    requires Valid(s) && ValidOp(op)
    ensures Valid(t)
  {
    if s.killed then s
    else
      match op
      case Nop => s
      case Kill => s.(killed := true)
      case Al2p(rd, ra, offset) => Write(s, rd, Add32(Read(s, ra), offset))
  }

  /** What an instruction does to a running shader: AL2P writes the sum, modulo 2^32, of a register and its offset and
      nothing else, and register 255 reads as zero and is never written; a no-op does nothing; a kill keeps the
      registers and stops the shader for good. */
  lemma StepMeaning(op: Op, s: Shader, r: nat)
    requires Valid(s) && ValidOp(op) && r < 254
    ensures Step(op, s).killed == (s.killed || op.Kill?)
    ensures !s.killed && op.Al2p? && r == op.rd ==>
      Step(op, s).regs[r] == (op.offset + if op.ra == 255 then 0 else s.regs[op.ra] as nat) % 0x1_0000_0000
    ensures s.killed || !op.Al2p? || r != op.rd ==> Step(op, s).regs[r] == s.regs[r]
  {
  }

  ghost predicate AllValid(ops: seq<Op>) { forall k :: 0 <= k < |ops| ==> ValidOp(ops[k]) }

  function RunOps(ops: seq<Op>, s: Shader): (t: Shader)
    requires Valid(s) && AllValid(ops)
    ensures Valid(t)
    decreases |ops|
  {
    if ops == [] then s else RunOps(ops[1..], Step(ops[0], s))
  }

  /** One instruction after the others. */
  lemma {:induction false} RunOpsSnoc(ops: seq<Op>, op: Op, s: Shader)
    requires Valid(s) && AllValid(ops) && ValidOp(op)
    ensures AllValid(ops + [op]) && RunOps(ops + [op], s) == Step(op, RunOps(ops, s))
    decreases |ops|
  {
    if ops == [] {
      assert RunOps([op], s) == RunOps([], Step(op, s));
    } else {
      assert ValidOp(ops[0]) && (ops + [op])[1..] == ops[1..] + [op];
      RunOpsSnoc(ops[1..], op, Step(ops[0], s));
    }
  }
}
