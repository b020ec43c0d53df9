/** Translation preserves meaning: the SPIR-V emitted for a shader computes, in its register
    variables, what the shader computes in its registers. */
module Simulation {
  import opened Bits
  import opened Wrappers
  import opened SpirvStream
  import opened SpirvEmitter
  import opened SpirvMachine
  import opened Sm86
  import Sass

  // -- Running emit calls ----------------------------------------------------------

  /** One machine step, as a function value, so that code can be composed without looking into it. */
  type Stepper = (Inst, Machine) -> Option<Machine>

  ghost predicate Follows(step: Stepper, initial: u32 -> u32) {
    forall i, m {:trigger Exec(i, m, initial)} :: step(i, m) == Exec(i, m, initial)
  }

  /** The effect of the instructions a list of calls appends when the next free ID is `id`. */
  ghost function Perform(step: Stepper, calls: seq<Call>, id: nat, m: Machine): Option<Machine>
    decreases |calls|
  {
    if calls == [] || m.killed then Some(m)
    else if id > ID_LIMIT then None
    else
      match step(InstOf(calls[0], id), m)
      case None => None
      case Some(m') => Perform(step, calls[1..], if HasResult(calls[0]) then id + 1 else id, m')
  }

  lemma {:induction false} PerformIsExecute(step: Stepper, calls: seq<Call>, id: u32, m: Machine, initial: u32 -> u32)
    requires Room(id, calls) && Follows(step, initial)
    ensures Execute(InstsOf(calls, id), m, initial) == Perform(step, calls, id, m)
    decreases |calls|
  {
    if calls != [] && !m.killed {
      var r := Exec(InstOf(calls[0], id), m, initial);
      if r.Some? {
        PerformIsExecute(step, calls[1..], if HasResult(calls[0]) then id + 1 else id, r.value, initial);
      }
    }
  }

  lemma {:induction false} PerformAppend(step: Stepper, a: seq<Call>, b: seq<Call>, id: nat, m: Machine, m1: Machine)
    requires Perform(step, a, id, m) == Some(m1)
    ensures Perform(step, a + b, id, m) == Perform(step, b, id + CountResults(a), m1)
    decreases |a|
  {
    if a == [] {
      assert a + b == b;
    } else if !m.killed {
      var next := step(InstOf(a[0], id), m).value;
      PerformAppend(step, a[1..], b, if HasResult(a[0]) then id + 1 else id, next, m1);
      assert (a + b)[0] == a[0] && (a + b)[1..] == a[1..] + b;
    }
  }

  lemma PerformOne(step: Stepper, c: Call, id: u32, m: Machine)
    requires !m.killed
    ensures Perform(step, [c], id, m) == step(InstOf(c, id), m)
  {
    var r := step(InstOf(c, id), m);
    if r.Some? {
      assert Perform(step, [], if HasResult(c) then id + 1 else id, r.value) == r;
    }
  }

  // -- Declarations --------------------------------------------------------------

  predicate IsTypeCall(c: Call) {
    && c.ResultFirst? && DeclaredType(c.opcode, c.operands).Some?
    && !IsAnnotation(c.opcode) && c.opcode !in {0, 252}
  }

  ghost predicate AllTypeCalls(calls: seq<Call>) { forall k :: 0 <= k < |calls| ==> IsTypeCall(calls[k]) }

  function AddTypes(types: map<u32, Ty>, calls: seq<Call>, id: u32): map<u32, Ty>
    requires id + |calls| <= ID_LIMIT && AllTypeCalls(calls)
    decreases |calls|
  {
    if calls == [] then types
    else
      assert IsTypeCall(calls[0]);
      AddTypes(types[id := DeclaredType(calls[0].opcode, calls[0].operands).value], calls[1..], id + 1)
  }

  lemma {:induction false} AddTypesAt(types: map<u32, Ty>, calls: seq<Call>, id: u32)
    requires id + |calls| <= ID_LIMIT && AllTypeCalls(calls)
    ensures var after := AddTypes(types, calls, id);
      && (forall t :: t in after <==> t in types || id <= t < id + |calls|)
      && (forall t :: t in types && t < id ==> after[t] == types[t])
      && (forall k :: 0 <= k < |calls| ==>
        id + k in after && after[id + k] == DeclaredType(calls[k].opcode, calls[k].operands).value)
    decreases |calls|
  {
    if calls != [] {
      assert IsTypeCall(calls[0]);
      var t := DeclaredType(calls[0].opcode, calls[0].operands).value;
      AddTypesAt(types[id := t], calls[1..], id + 1);
      var after := AddTypes(types[id := t], calls[1..], id + 1);
      assert after[id] == t;
      forall k | 0 < k < |calls|
        ensures id + k in after && after[id + k] == DeclaredType(calls[k].opcode, calls[k].operands).value
      {
        var j := k - 1;
        assert id + 1 + j in after && calls[1..][j] == calls[k];
      }
    }
  }

  /** Every ID of the machine is below the emitter's next free one. */
  ghost predicate Below(m: Machine, id: u32) { forall x: u32 :: Defined(m, x) ==> x < id }

  lemma {:induction false} PerformTypes(step: Stepper, calls: seq<Call>, id: u32, m: Machine, initial: u32 -> u32)
    requires Follows(step, initial)
    requires id + |calls| <= ID_LIMIT && AllTypeCalls(calls)
    requires Below(m, id) && !m.killed
    ensures Perform(step, calls, id, m) == Some(m.(types := AddTypes(m.types, calls, id)))
    decreases |calls|
  {
    if calls != [] {
      assert IsTypeCall(calls[0]);
      var c := calls[0];
      var i := InstOf(c, id);
      assert i.operands[1..] == c.operands;
      assert !Defined(m, id);
      var m' := m.(types := m.types[id := DeclaredType(c.opcode, c.operands).value]);
      assert Exec(i, m, initial) == Some(m');
      assert forall x: u32 :: Defined(m', x) ==> x == id || Defined(m, x);
      PerformTypes(step, calls[1..], id + 1, m', initial);
    }
  }

  function AddVariables(memory: map<u32, u32>, id: u32, n: nat, initial: u32 -> u32): map<u32, u32>
    requires id + n <= ID_LIMIT
  {
    if n == 0 then memory else AddVariables(memory, id, n - 1, initial)[id + n - 1 := initial(id + n - 1)]
  }

  lemma {:induction false} AddVariablesAt(memory: map<u32, u32>, id: u32, n: nat, initial: u32 -> u32)
    requires id + n <= ID_LIMIT
    ensures var after := AddVariables(memory, id, n, initial);
      && (forall x :: x in after <==> x in memory || id <= x < id + n)
      && (forall x :: id <= x < id + n ==> after[x] == initial(x))
  {
    if n > 0 {
      AddVariablesAt(memory, id, n - 1, initial);
    }
  }

  lemma {:induction false} PerformVariables(step: Stepper, pointer: u32, id: u32, n: nat, m: Machine,
                                            initial: u32 -> u32)
    requires Follows(step, initial)
    requires id + n <= ID_LIMIT
    requires Below(m, id) && !m.killed && IsWordPointer(m, pointer)
    ensures Perform(step, Variables(pointer, n), id, m)
         == Some(m.(memory := AddVariables(m.memory, id, n, initial)))
  {
    if n > 0 {
      var before := Variables(pointer, n - 1);
      var c := Typed(59, pointer, [7]);
      assert Variables(pointer, n) == before + [c];
      AllResults(before);
      PerformVariables(step, pointer, id, n - 1, m, initial);
      PerformAppend(step, before, [c], id, m, m.(memory := AddVariables(m.memory, id, n - 1, initial)));
      PerformVariable(step, pointer, id, n - 1, m, initial);
    }
  }

  lemma PerformVariable(step: Stepper, pointer: u32, id: u32, n: nat, m: Machine, initial: u32 -> u32)
    requires Follows(step, initial)
    requires id + n < ID_LIMIT
    requires Below(m, id) && !m.killed && IsWordPointer(m, pointer)
    ensures var m1 := m.(memory := AddVariables(m.memory, id, n, initial));
      Perform(step, [Typed(59, pointer, [7])], id + n, m1) ==
      Some(m.(memory := AddVariables(m.memory, id, n + 1, initial)))
  {
    var m1 := m.(memory := AddVariables(m.memory, id, n, initial));
    AddVariablesAt(m.memory, id, n, initial);
    assert !Defined(m, id + n) && !Defined(m1, id + n);
    PerformOne(step, Typed(59, pointer, [7]), id + n, m1);
    VariableExec(pointer, id + n, m1, initial);
  }

  lemma VariableExec(pointer: u32, id: u32, m: Machine, initial: u32 -> u32)
    requires IsWordPointer(m, pointer) && !Defined(m, id)
    ensures Exec(InstOf(Typed(59, pointer, [7]), id), m, initial) == Some(m.(memory := m.memory[id := initial(id)]))
  {
  }

  // -- The simulation relation ----------------------------------------------------

  /** The machine's register variables hold the shader's registers. */
  ghost predicate Related(l: Layout, m: Machine, s: Sass.Shader, nextId: u32) {
    && ValidLayout(l) && Sass.Valid(s)
    && IsWordType(m, l.typeU32)
    && (forall i, j :: 0 <= i < j < Sass.REGISTERS ==> l.regs[i] != l.regs[j])
    && (forall i :: 0 <= i < Sass.REGISTERS ==> l.regs[i] in m.memory && m.memory[l.regs[i]] == s.regs[i])
    && m.killed == s.killed
    && Below(m, nextId)
  }

  /** The shader whose registers start with the values the variables start with. */
  ghost function InitialShader(l: Layout, initial: u32 -> u32): (s: Sass.Shader)
    requires ValidLayout(l)
    ensures Sass.Valid(s)
  {
    Sass.Shader(seq(Sass.REGISTERS, i requires 0 <= i < Sass.REGISTERS => initial(l.regs[i])), false)
  }

  lemma InitRoom(id: u32, tables: seq<Table>)
    requires ValidTables(tables) && id + 304 <= ID_LIMIT
    ensures CountResults(InitCalls(id, tables)) == 304
    ensures CountResults(TypeCalls(id, tables)) == 50
    ensures forall k :: 0 <= k < 304 ==> InitCalls(id, tables)[k].ResultFirst? || InitCalls(id, tables)[k].Typed?
  {
    InitPlan(id, tables);
    AllResults(InitCalls(id, tables));
    AllResults(TypeCalls(id, tables));
  }

  /** Every declaration before the register variables is a type. */
  lemma TypeCallsAreTypes(id: u32, tables: seq<Table>)
    requires ValidTables(tables) && id + 304 <= ID_LIMIT
    ensures AllTypeCalls(TypeCalls(id, tables))
    ensures TypeCalls(id, tables)[3] == ResultFirst(21, [32, 0])
    ensures TypeCalls(id, tables)[49] == ResultFirst(32, [7, id + 3])
  {
    var calls := TypeCalls(id, tables);
    forall k | 0 <= k < 13 ensures IsTypeCall(calls[k]) {
      assert calls[k] == ScalarCall(k);
    }
    forall k | 13 <= k < 49 ensures IsTypeCall(calls[k]) {
      assert calls[k] == Vectors(tables, 36)[k - 13];
    }
  }

  /** After the prologue every register has its own fresh variable. */
  lemma InitSimulates(step: Stepper, id: u32, tables: seq<Table>, m: Machine, initial: u32 -> u32) returns (m2: Machine)
    requires Follows(step, initial)
    requires ValidTables(tables) && id + 304 <= ID_LIMIT && Below(m, id) && !m.killed
    ensures Perform(step, InitCalls(id, tables), id, m) == Some(m2)
    ensures Related(LayoutAt(id), m2, InitialShader(LayoutAt(id), initial), id + 304)
  {
    var types, vars := TypeCalls(id, tables), Variables(id + 49, Sass.REGISTERS);
    InitRoom(id, tables);
    var m1 := TypesSimulate(step, id, tables, m, initial);
    m2 := VariablesSimulate(step, id, m1, initial);
    PerformAppend(step, types, vars, id, m, m1);
  }

  lemma TypesSimulate(step: Stepper, id: u32, tables: seq<Table>, m: Machine, initial: u32 -> u32) returns (m1: Machine)
    requires Follows(step, initial)
    requires ValidTables(tables) && id + 304 <= ID_LIMIT && Below(m, id) && !m.killed
    ensures Perform(step, TypeCalls(id, tables), id, m) == Some(m1)
    ensures IsWordType(m1, id + 3) && IsWordPointer(m1, id + 49) && Below(m1, id + 50) && !m1.killed
  {
    var types := TypeCalls(id, tables);
    TypeCallsAreTypes(id, tables);
    PerformTypes(step, types, id, m, initial);
    AddTypesAt(m.types, types, id);
    m1 := m.(types := AddTypes(m.types, types, id));
    assert forall x: u32 :: Defined(m1, x) ==> Defined(m, x) || id <= x < id + 50;
  }

  lemma VariablesSimulate(step: Stepper, id: u32, m1: Machine, initial: u32 -> u32) returns (m2: Machine)
    requires Follows(step, initial)
    requires id + 304 <= ID_LIMIT && Below(m1, id + 50) && !m1.killed
    requires IsWordType(m1, id + 3) && IsWordPointer(m1, id + 49)
    ensures Perform(step, Variables(id + 49, Sass.REGISTERS), id + 50, m1) == Some(m2)
    ensures Related(LayoutAt(id), m2, InitialShader(LayoutAt(id), initial), id + 304)
  {
    PerformVariables(step, id + 49, id + 50, Sass.REGISTERS, m1, initial);
    m2 := m1.(memory := AddVariables(m1.memory, id + 50, Sass.REGISTERS, initial));
    FreshRegisters(id, m1, m2, initial);
  }

  lemma FreshRegisters(id: u32, m1: Machine, m2: Machine, initial: u32 -> u32)
    requires id + 304 <= ID_LIMIT && Below(m1, id + 50) && !m1.killed && IsWordType(m1, id + 3)
    requires m2 == m1.(memory := AddVariables(m1.memory, id + 50, Sass.REGISTERS, initial))
    ensures Related(LayoutAt(id), m2, InitialShader(LayoutAt(id), initial), id + 304)
  {
    AddVariablesAt(m1.memory, id + 50, Sass.REGISTERS, initial);
    assert forall x: u32 :: Defined(m2, x) ==> Defined(m1, x) || id + 50 <= x < id + 304;
  }

  /** One instruction's code keeps the relation. */
  lemma StepSimulates(step: Stepper, l: Layout, op: Sass.Op, id: u32, m: Machine, s: Sass.Shader, initial: u32 -> u32)
    returns (m': Machine)
    requires Follows(step, initial)
    requires Related(l, m, s, id) && Sass.ValidOp(op) && id + 3 <= ID_LIMIT
    ensures Perform(step, OpCalls(l, op, id), id, m) == Some(m')
    ensures Related(l, m', Sass.Step(op, s), id + ResultCount(op))
  {
    m' := m;
    if !m.killed {
      match op
      case Nop =>
        PerformOne(step, Plain(0, []), id, m);
        assert Exec(InstOf(Plain(0, []), id), m, initial) == Some(m);
      case Kill =>
        m' := m.(killed := true);
        PerformOne(step, Plain(252, []), id, m);
        assert Exec(InstOf(Plain(252, []), id), m, initial) == Some(m');
        assert forall x: u32 :: Defined(m', x) ==> Defined(m, x);
      case Al2p(rd, ra, offset) =>
        m' := Al2pSimulates(step, l, op, id, m, s, initial);
    }
  }

  lemma Al2pSimulates(step: Stepper, l: Layout, op: Sass.Op, id: u32, m: Machine, s: Sass.Shader, initial: u32 -> u32)
    returns (m': Machine)
    requires Follows(step, initial)
    requires Related(l, m, s, id) && !m.killed && op.Al2p? && Sass.ValidOp(op) && id + 3 <= ID_LIMIT
    ensures Perform(step, OpCalls(l, op, id), id, m) == Some(m')
    ensures Related(l, m', Sass.Step(op, s), id + 3)
  {
    var arithmetic, store := ArithmeticCalls(l, op.ra, op.offset, id), StoreCalls(l, op.rd, id + 2);
    var m1 := ArithmeticSimulates(step, l, op.ra, op.offset, id, m, s, initial);
    AllResults(arithmetic);
    PerformAppend(step, arithmetic, store, id, m, m1);
    m' := StoreSimulates(step, l, op.rd, id + 2, id + 3, m1, s, initial);
  }

  /** Load, constant and add leave the sum in the third fresh ID. */
  lemma ArithmeticSimulates(step: Stepper, l: Layout, ra: nat, offset: u32, id: u32, m: Machine, s: Sass.Shader,
                            initial: u32 -> u32)
    returns (m3: Machine)
    requires Follows(step, initial)
    requires Related(l, m, s, id) && !m.killed && Sass.IsRegister(ra) && id + 3 <= ID_LIMIT
    ensures Perform(step, ArithmeticCalls(l, ra, offset, id), id, m) == Some(m3)
    ensures Related(l, m3, s, id + 3) && !m3.killed && id + 2 in m3.values
    ensures m3.values[id + 2] == Add32(Sass.Read(s, ra), offset)
  {
    var a, b, c := LoadCall(l, ra), Typed(43, l.typeU32, [offset]), Typed(128, l.typeU32, [id, id + 1]);
    var m1 := LoadSimulates(step, l, ra, id, m, s, initial);
    var m2 := DefineValue(l, id + 1, offset, m1, s);
    m3 := DefineValue(l, id + 2, Add32(Sass.Read(s, ra), offset), m2, s);
    ExecConstant(l.typeU32, id + 1, offset, m1, initial);
    ExecAdd(l.typeU32, id + 2, id, id + 1, m2, initial);
    PerformThree(step, a, b, c, id, m, m1, m2, m3);
  }

  lemma ExecConstant(ty: u32, id: u32, v: u32, m: Machine, initial: u32 -> u32)
    requires IsWordType(m, ty) && !Defined(m, id)
    ensures Exec(InstOf(Typed(43, ty, [v]), id), m, initial) == Some(m.(values := m.values[id := v]))
  {
  }

  lemma ExecAdd(ty: u32, id: u32, x: u32, y: u32, m: Machine, initial: u32 -> u32)
    requires IsWordType(m, ty) && !Defined(m, id) && x in m.values && y in m.values
    ensures Exec(InstOf(Typed(128, ty, [x, y]), id), m, initial)
         == Some(m.(values := m.values[id := Add32(m.values[x], m.values[y])]))
  {
  }

  /** Giving the next free ID a value keeps the relation. */
  lemma DefineValue(l: Layout, id: u32, v: u32, m: Machine, s: Sass.Shader) returns (m': Machine)
    requires Related(l, m, s, id) && id < ID_LIMIT
    ensures m' == m.(values := m.values[id := v]) && !Defined(m, id)
    ensures Related(l, m', s, id + 1)
  {
    m' := m.(values := m.values[id := v]);
    assert forall x: u32 :: Defined(m', x) ==> Defined(m, x) || x == id;
  }

  lemma LoadSimulates(step: Stepper, l: Layout, ra: nat, id: u32, m: Machine, s: Sass.Shader, initial: u32 -> u32)
    returns (m1: Machine)
    requires Follows(step, initial)
    requires Related(l, m, s, id) && !m.killed && Sass.IsRegister(ra) && id < ID_LIMIT
    ensures Exec(InstOf(LoadCall(l, ra), id), m, initial) == Some(m1)
    ensures m1 == m.(values := m.values[id := Sass.Read(s, ra)]) && Related(l, m1, s, id + 1)
  {
    m1 := DefineValue(l, id, Sass.Read(s, ra), m, s);
  }

  lemma PerformThree(step: Stepper, a: Call, b: Call, c: Call, id: u32, m: Machine, m1: Machine, m2: Machine,
                     m3: Machine)
    requires HasResult(a) && HasResult(b) && HasResult(c) && id + 3 <= ID_LIMIT
    requires !m.killed && !m1.killed && !m2.killed
    requires step(InstOf(a, id), m) == Some(m1)
    requires step(InstOf(b, id + 1), m1) == Some(m2)
    requires step(InstOf(c, id + 2), m2) == Some(m3)
    ensures Perform(step, [a, b, c], id, m) == Some(m3)
  {
    assert [a, b, c][1..] == [b, c] && [b, c][1..] == [c];
    PerformOne(step, c, id + 2, m2);
    assert Perform(step, [b, c], id + 1, m1) == Some(m3);
  }

  lemma StoreSimulates(step: Stepper, l: Layout, rd: nat, v: u32, id: u32, m: Machine, s: Sass.Shader,
                       initial: u32 -> u32)
    returns (m': Machine)
    requires Follows(step, initial)
    requires Related(l, m, s, id) && !m.killed && Sass.IsRegister(rd) && v in m.values
    ensures Perform(step, StoreCalls(l, rd, v), id, m) == Some(m')
    ensures Related(l, m', Sass.Write(s, rd, m.values[v]), id)
  {
    m' := m;
    if rd != Sass.ZERO_REGISTER {
      var c := Plain(62, [l.regs[rd], v]);
      m' := m.(memory := m.memory[l.regs[rd] := m.values[v]]);
      PerformOne(step, c, id, m);
      assert Exec(InstOf(c, id), m, initial) == Some(m');
      assert forall x: u32 :: Defined(m', x) <==> Defined(m, x);
    }
  }

  // -- Whole programs -------------------------------------------------------------

  function ResultTotal(ops: seq<Sass.Op>): nat
  {
    if ops == [] then 0 else ResultCount(ops[0]) + ResultTotal(ops[1..])
  }

  /** The code for a list of instructions, in order. */
  function ProgramCalls(l: Layout, ops: seq<Sass.Op>, id: u32): seq<Call>
    requires ValidLayout(l) && Sass.AllValid(ops) && id + ResultTotal(ops) + 3 <= ID_LIMIT
    decreases |ops|
  {
    if ops == [] then [] else OpCalls(l, ops[0], id) + ProgramCalls(l, ops[1..], id + ResultCount(ops[0]))
  }

  lemma RoomAppend(a: seq<Call>, b: seq<Call>)
    ensures AllEmittable(a) && AllEmittable(b) ==> AllEmittable(a + b)
    ensures CountResults(a + b) == CountResults(a) + CountResults(b)
  {
    CountAppend(a, b);
  }

  lemma ProgramUnfold(l: Layout, ops: seq<Sass.Op>, id: u32)
    requires ValidLayout(l) && ops != [] && Sass.AllValid(ops) && id + ResultTotal(ops) + 3 <= ID_LIMIT
    ensures ProgramCalls(l, ops, id) == OpCalls(l, ops[0], id) + ProgramCalls(l, ops[1..], id + ResultCount(ops[0]))
  {
  }

  lemma ProgramRoomMore(l: Layout, ops: seq<Sass.Op>, id: u32)
    requires ValidLayout(l) && ops != [] && Sass.AllValid(ops) && id + ResultTotal(ops) + 3 <= ID_LIMIT
    requires CountResults(ProgramCalls(l, ops[1..], id + ResultCount(ops[0]))) == ResultTotal(ops[1..])
    requires AllEmittable(ProgramCalls(l, ops[1..], id + ResultCount(ops[0])))
    ensures CountResults(ProgramCalls(l, ops, id)) == ResultTotal(ops)
    ensures AllEmittable(ProgramCalls(l, ops, id))
  {
    ProgramUnfold(l, ops, id);
    OpCallsRoom(l, ops[0], id);
    RoomAppend(OpCalls(l, ops[0], id), ProgramCalls(l, ops[1..], id + ResultCount(ops[0])));
  }

  lemma {:induction false} ProgramRoom(l: Layout, ops: seq<Sass.Op>, id: u32)
    requires ValidLayout(l) && Sass.AllValid(ops) && id + ResultTotal(ops) + 3 <= ID_LIMIT
    ensures CountResults(ProgramCalls(l, ops, id)) == ResultTotal(ops)
    ensures AllEmittable(ProgramCalls(l, ops, id))
    decreases |ops|
  {
    if ops != [] {
      ProgramRoom(l, ops[1..], id + ResultCount(ops[0]));
      ProgramRoomMore(l, ops, id);
    }
  }

  lemma {:induction false} ProgramSimulates(step: Stepper, l: Layout, ops: seq<Sass.Op>, id: u32, m: Machine,
                                            s: Sass.Shader, initial: u32 -> u32)
    returns (m': Machine)
    requires Follows(step, initial)
    requires Related(l, m, s, id) && Sass.AllValid(ops) && id + ResultTotal(ops) + 3 <= ID_LIMIT
    ensures Perform(step, ProgramCalls(l, ops, id), id, m) == Some(m')
    ensures Related(l, m', Sass.RunOps(ops, s), id + ResultTotal(ops))
    decreases |ops|
  {
    m' := m;
    if ops != [] {
      var m1, s1, next := FirstSimulates(step, l, ops, id, m, s, initial);
      m' := ProgramSimulates(step, l, ops[1..], next, m1, s1, initial);
      PerformProgram(step, l, ops, id, m, m1, m');
    }
  }

  /** The first instruction, and what is left to do. */
  lemma FirstSimulates(step: Stepper, l: Layout, ops: seq<Sass.Op>, id: u32, m: Machine, s: Sass.Shader,
                       initial: u32 -> u32)
    returns (m1: Machine, s1: Sass.Shader, next: u32)
    requires Follows(step, initial) && ops != []
    requires Related(l, m, s, id) && Sass.AllValid(ops) && id + ResultTotal(ops) + 3 <= ID_LIMIT
    ensures Sass.ValidOp(ops[0]) && Sass.AllValid(ops[1..]) && next == id + ResultCount(ops[0])
    ensures Perform(step, OpCalls(l, ops[0], id), id, m) == Some(m1) && Related(l, m1, s1, next)
    ensures next + ResultTotal(ops[1..]) == id + ResultTotal(ops)
    ensures Sass.RunOps(ops[1..], s1) == Sass.RunOps(ops, s)
  {
    FirstOp(ops, s);
    next, s1 := id + ResultCount(ops[0]), Sass.Step(ops[0], s);
    m1 := StepSimulates(step, l, ops[0], id, m, s, initial);
  }

  lemma FirstOp(ops: seq<Sass.Op>, s: Sass.Shader)
    requires ops != [] && Sass.AllValid(ops) && Sass.Valid(s)
    ensures Sass.ValidOp(ops[0]) && Sass.AllValid(ops[1..])
    ensures Sass.Valid(Sass.Step(ops[0], s)) && Sass.RunOps(ops, s) == Sass.RunOps(ops[1..], Sass.Step(ops[0], s))
    ensures ResultTotal(ops) == ResultCount(ops[0]) + ResultTotal(ops[1..])
  {
  }

  /** The code of a program is the code of its first instruction, then the rest. */
  lemma PerformProgram(step: Stepper, l: Layout, ops: seq<Sass.Op>, id: u32, m: Machine, m1: Machine, m2: Machine)
    requires ValidLayout(l) && ops != [] && Sass.AllValid(ops) && id + ResultTotal(ops) + 3 <= ID_LIMIT
    requires Perform(step, OpCalls(l, ops[0], id), id, m) == Some(m1)
    requires var next := id + ResultCount(ops[0]);
      Perform(step, ProgramCalls(l, ops[1..], next), next, m1) == Some(m2)
    ensures Perform(step, ProgramCalls(l, ops, id), id, m) == Some(m2)
  {
    OpCallsRoom(l, ops[0], id);
    PerformAppend(step, OpCalls(l, ops[0], id), ProgramCalls(l, ops[1..], id + ResultCount(ops[0])), id, m, m1);
    ProgramUnfold(l, ops, id);
  }

  /** Calls for debug, annotation and mode instructions, which a module has before its types. */
  ghost predicate AllAnnotations(calls: seq<Call>) {
    forall k :: 0 <= k < |calls| ==> calls[k].Plain? && IsAnnotation(calls[k].opcode) && |calls[k].operands| <= 65534
  }

  lemma {:induction false} AnnotationsRoom(calls: seq<Call>)
    requires AllAnnotations(calls)
    ensures CountResults(calls) == 0
  {
    if calls != [] {
      AnnotationsRoom(calls[1..]);
    }
  }

  lemma {:induction false} PerformAnnotations(step: Stepper, calls: seq<Call>, id: u32, m: Machine, initial: u32 -> u32)
    requires Follows(step, initial)
    requires AllAnnotations(calls) && !m.killed && id <= ID_LIMIT
    ensures Perform(step, calls, id, m) == Some(m)
    decreases |calls|
  {
    if calls != [] {
      assert Exec(InstOf(calls[0], id), m, initial) == Some(m);
      PerformAnnotations(step, calls[1..], id, m, initial);
    }
  }

  /** Every call of a translated module. */
  function ModuleCalls(annotations: seq<Call>, tables: seq<Table>, ops: seq<Sass.Op>): seq<Call>
    requires ValidTables(tables) && Sass.AllValid(ops) && 308 + ResultTotal(ops) <= ID_LIMIT
  {
    annotations + (InitCalls(1, tables) + ProgramCalls(LayoutAt(1), ops, 305))
  }

  lemma ModuleRoom(annotations: seq<Call>, tables: seq<Table>, ops: seq<Sass.Op>)
    requires AllAnnotations(annotations) && ValidTables(tables)
    requires Sass.AllValid(ops) && 308 + ResultTotal(ops) <= ID_LIMIT
    ensures Room(1, ModuleCalls(annotations, tables, ops)) && AllEmittable(ModuleCalls(annotations, tables, ops))
  {
    var prologue, code := InitCalls(1, tables), ProgramCalls(LayoutAt(1), ops, 305);
    AnnotationsRoom(annotations);
    InitRoom(1, tables);
    ProgramRoom(LayoutAt(1), ops, 305);
    CountAppend(prologue, code);
    CountAppend(annotations, prologue + code);
    InitEmittable(1, tables);
  }

  lemma InitEmittable(id: u32, tables: seq<Table>)
    requires ValidTables(tables) && id + 304 <= ID_LIMIT
    ensures AllEmittable(InitCalls(id, tables))
  {
    InitPlan(id, tables);
    var plan := InitCalls(id, tables);
    forall k | 0 <= k < 13 ensures Emittable(plan[k]) {
      assert plan[k] == ScalarCall(k);
    }
    forall k | 13 <= k < 49 ensures Emittable(plan[k]) {
      assert plan[k] == Vectors(tables, 36)[k - 13];
    }
  }

  /** The module, walked from the header on and executed strictly from a blank machine, gets stuck
      nowhere and ends with every register variable holding what the shader's register holds, killed
      exactly when the shader is. */
  ghost predicate Computes(words: seq<u32>, l: Layout, initial: u32 -> u32, s: Sass.Shader) {
    && ValidLayout(l) && Sass.Valid(s)
    && |words| >= HEADER_LENGTH && Walk(words[HEADER_LENGTH..]).Some?
    && var r := Execute(Walk(words[HEADER_LENGTH..]).value, BLANK, initial);
    && r.Some? && r.value.killed == s.killed
    && forall i :: 0 <= i < Sass.REGISTERS ==> l.regs[i] in r.value.memory && r.value.memory[l.regs[i]] == s.regs[i]
  }

  /** Translation correctness: a module that is started, annotated, given the register prologue and
      then the code of a list of instructions, and finalized, is well formed and computes what the
      instructions compute, whatever the registers hold at the start. */
  lemma TranslationCorrect(annotations: seq<Call>, tables: seq<Table>, ops: seq<Sass.Op>, initial: u32 -> u32)
    requires AllAnnotations(annotations) && ValidTables(tables)
    requires Sass.AllValid(ops) && 308 + ResultTotal(ops) <= ID_LIMIT
    ensures Room(1, ModuleCalls(annotations, tables, ops))
    ensures var words := Finalized(Run(STARTED, ModuleCalls(annotations, tables, ops))).words;
      && WellFormed(words)
      && Computes(words, LayoutAt(1), initial, Sass.RunOps(ops, InitialShader(LayoutAt(1), initial)))
  {
    var calls := ModuleCalls(annotations, tables, ops);
    ModuleRoom(annotations, tables, ops);
    var step := (i: Inst, m: Machine) => Exec(i, m, initial);
    var _ := ModulePerforms(step, annotations, tables, ops, initial);
    PerformIsExecute(step, calls, 1, BLANK, initial);
    EmissionInverse(calls);
  }

  lemma ModulePerforms(step: Stepper, annotations: seq<Call>, tables: seq<Table>, ops: seq<Sass.Op>,
                       initial: u32 -> u32)
    returns (m2: Machine)
    requires Follows(step, initial)
    requires AllAnnotations(annotations) && ValidTables(tables)
    requires Sass.AllValid(ops) && 308 + ResultTotal(ops) <= ID_LIMIT
    ensures Perform(step, ModuleCalls(annotations, tables, ops), 1, BLANK) == Some(m2)
    ensures Related(LayoutAt(1), m2, Sass.RunOps(ops, InitialShader(LayoutAt(1), initial)), 305 + ResultTotal(ops))
  {
    var prologue, code := InitCalls(1, tables), ProgramCalls(LayoutAt(1), ops, 305);
    InitRoom(1, tables);
    var m1 := InitSimulates(step, 1, tables, BLANK, initial);
    m2 := ProgramSimulates(step, LayoutAt(1), ops, 305, m1, InitialShader(LayoutAt(1), initial), initial);
    PerformParts(step, annotations, prologue, code, m1, m2, initial);
  }

  lemma PerformParts(step: Stepper, annotations: seq<Call>, prologue: seq<Call>, code: seq<Call>, m1: Machine,
                     m2: Machine, initial: u32 -> u32)
    requires AllAnnotations(annotations) && Follows(step, initial)
    requires Perform(step, prologue, 1, BLANK) == Some(m1)
    requires Perform(step, code, 1 + CountResults(prologue), m1) == Some(m2)
    ensures Perform(step, annotations + (prologue + code), 1, BLANK) == Some(m2)
  {
    PerformAppend(step, prologue, code, 1, BLANK, m1);
    AnnotationsRoom(annotations);
    PerformAnnotations(step, annotations, 1, BLANK, initial);
    PerformAppend(step, annotations, prologue + code, 1, BLANK, BLANK);
  }
}
