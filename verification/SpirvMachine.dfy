/** An interpreter for the SPIR-V instructions the shader decoder emits. It is strict: an ID may be
    defined once only, and an instruction that uses an undefined ID or an ID of the wrong kind is stuck. */
module SpirvMachine {
  import opened Bits
  import opened Wrappers
  import opened SpirvStream

  /** The storage class of function-local variables. */
  const FUNCTION_STORAGE: u32 := 7

  datatype Ty =
    | Void
    | Bool
    | Int(width: u32, sign: u32)
    | Float(width: u32)
    | Vector(component: u32, count: u32)
    | Pointer(storage: u32, pointee: u32)

  /** `memory` holds the variables by the ID of their pointer. */
  datatype Machine = Machine(types: map<u32, Ty>, values: map<u32, u32>, memory: map<u32, u32>, killed: bool)

  const BLANK := Machine(map[], map[], map[], false)

  predicate Defined(m: Machine, id: u32) { id in m.types || id in m.values || id in m.memory }

  predicate IsWordType(m: Machine, ty: u32) { ty in m.types && m.types[ty] == Int(32, 0) }

  predicate IsWordPointer(m: Machine, ty: u32) {
    && ty in m.types && m.types[ty].Pointer?
    && m.types[ty].storage == FUNCTION_STORAGE && IsWordType(m, m.types[ty].pointee)
  }

  /** Debug, annotation and mode instructions, which have no effect on execution. */
  predicate IsAnnotation(opcode: u16) { opcode in {5, 6, 10, 14, 15, 16, 17, 71, 72, 74} }

  /** The type a declaration introduces. Vector component types are not checked. */
  function DeclaredType(opcode: u16, operands: seq<u32>): Option<Ty> {
    match (opcode, |operands|)
    case (19, 0) => Some(Void)
    case (20, 0) => Some(Bool)
    case (21, 2) => Some(Int(operands[0], operands[1]))
    case (22, 1) => Some(Float(operands[0]))
    case (23, 2) => Some(Vector(operands[0], operands[1]))
    case (32, 2) => Some(Pointer(operands[0], operands[1]))
    case _ => None
  }

  /** One instruction; None when it is stuck. A variable starts with an arbitrary value, given by `initial`. */
  function Exec(i: Inst, m: Machine, initial: u32 -> u32): Option<Machine> {
    var ops := i.operands;
    if IsAnnotation(i.opcode) then Some(m)
    else if i.opcode == 0 then if ops == [] then Some(m) else None
    else if i.opcode == 252 then if ops == [] then Some(m.(killed := true)) else None
    else if |ops| > 0 && DeclaredType(i.opcode, ops[1..]).Some? then
      if Defined(m, ops[0]) then None
      else Some(m.(types := m.types[ops[0] := DeclaredType(i.opcode, ops[1..]).value]))
    else if i.opcode == 62 then
      if |ops| == 2 && ops[0] in m.memory && ops[1] in m.values
      then Some(m.(memory := m.memory[ops[0] := m.values[ops[1]]])) else None
    else if |ops| < 2 || Defined(m, ops[1]) then None
    else if i.opcode == 59 then
      if |ops| == 3 && IsWordPointer(m, ops[0]) && ops[2] == FUNCTION_STORAGE
      then Some(m.(memory := m.memory[ops[1] := initial(ops[1])])) else None
    else if !IsWordType(m, ops[0]) then None
    else if i.opcode == 43 then
      if |ops| == 3 then Some(m.(values := m.values[ops[1] := ops[2]])) else None
    else if i.opcode == 61 then
      if |ops| == 3 && ops[2] in m.memory
      then Some(m.(values := m.values[ops[1] := m.memory[ops[2]]])) else None
    else if i.opcode == 128 then
      if |ops| == 4 && ops[2] in m.values && ops[3] in m.values
      then Some(m.(values := m.values[ops[1] := Add32(m.values[ops[2]], m.values[ops[3]])])) else None
    else None
  }

  /** An addition of two words defines a new one, their sum modulo 2^32, and changes nothing else. */
  lemma AddMeaning(ty: u32, r: u32, a: u32, b: u32, m: Machine, initial: u32 -> u32)
    requires IsWordType(m, ty) && !Defined(m, r) && a in m.values && b in m.values
    ensures var x: nat, y: nat := m.values[a], m.values[b];
      Exec(Inst(128, [ty, r, a, b]), m, initial) == Some(m.(values := m.values[r := (x + y) % 0x1_0000_0000]))
  {
  }

  /** Straight-line execution, up to a kill. */
  function Execute(insts: seq<Inst>, m: Machine, initial: u32 -> u32): Option<Machine>
    decreases |insts|
  {
    if insts == [] || m.killed then Some(m)
    else
      match Exec(insts[0], m, initial)
      case None => None
      case Some(m') => Execute(insts[1..], m', initial)
  }
}
