/** The SM86 decoder: it declares a SPIR-V variable per register and appends code for each word. */
module Sm86 {
  import opened Bits
  import opened Wrappers
  import opened Slices
  import opened SpirvStream
  import opened SpirvEmitter
  import opened SpirvLiteral
  import opened Sass

  /** The IDs translated code refers to. */
  datatype Layout = Layout(typeU32: u32, regs: seq<u32>)

  predicate ValidLayout(l: Layout) { |l.regs| == REGISTERS }

  // -- What each operation appends -------------------------------------------------

  /** The scalar type declarations, in order. */
  function ScalarCall(k: nat): Call
    requires k < 13
  {
    if k == 0 then ResultFirst(19, [])
    else if k == 12 then ResultFirst(20, [])
    else if k < 5 then ResultFirst(21, [Width(k - 1), 0])
    else if k < 9 then ResultFirst(21, [Width(k - 5), 1])
    else ResultFirst(22, [Width(k - 8)])
  }

  function Width(n: nat): (w: u32)
    requires n < 4
    ensures w in {8, 16, 32, 64}
  {
    match n case 0 => 8 case 1 => 16 case 2 => 32 case 3 => 64
  }

  function Scalars(): (calls: seq<Call>)
    ensures |calls| == 13
  {
    seq(13, k requires 0 <= k < 13 => ScalarCall(k))
  }

  /** The IDs of a scalar type and its vectors, by component count; the declared slots are 1 to 4. */
  type Table = s: seq<u32> | |s| == 5 witness [0, 0, 0, 0, 0]

  ghost predicate ValidTables(tables: seq<Table>) { |tables| == 12 }

  /** The first `n` vector declarations. Their component slots are whatever the tables held before `init`. */
  function Vectors(tables: seq<Table>, n: nat): (calls: seq<Call>)
    requires ValidTables(tables) && n <= 36
    ensures |calls| == n
  {
    seq(n, m requires 0 <= m < n => ResultFirst(23, [tables[m % 12][2 + m / 12], 2 + m / 12]))
  }

  function Variables(pointer: u32, n: nat): (calls: seq<Call>)
    ensures |calls| == n
  {
    seq(n, _ => Typed(59, pointer, [7]))
  }

  /** All type declarations of `init`, when the first free ID is `id`. */
  function TypeCalls(id: u32, tables: seq<Table>): (calls: seq<Call>)
    requires ValidTables(tables) && id + 304 <= ID_LIMIT
    ensures |calls| == 50
  {
    Scalars() + Vectors(tables, 36) + [ResultFirst(32, [7, id + 3])]
  }

  function InitCalls(id: u32, tables: seq<Table>): (calls: seq<Call>)
    requires ValidTables(tables) && id + 304 <= ID_LIMIT
    ensures |calls| == 304
  {
    TypeCalls(id, tables) + Variables(id + 49, REGISTERS)
  }

  function LayoutAt(id: u32): (l: Layout)
    requires id + 304 <= ID_LIMIT
    ensures ValidLayout(l)
  {
    Layout(id + 3, seq(REGISTERS, i requires 0 <= i < REGISTERS => id + 50 + i))
  }

  function LoadCall(l: Layout, r: nat): Call
    requires ValidLayout(l) && IsRegister(r)
  {
    if r == ZERO_REGISTER then Typed(43, l.typeU32, [0]) else Typed(61, l.typeU32, [l.regs[r]])
  }

  function StoreCalls(l: Layout, r: nat, v: u32): seq<Call>
    requires ValidLayout(l) && IsRegister(r)
  {
    if r == ZERO_REGISTER then [] else [Plain(62, [l.regs[r], v])]
  }

  /** The code for one instruction: at most load, constant, add, store. */
  function OpCalls(l: Layout, op: Op, id: u32): seq<Call>
    requires ValidLayout(l) && ValidOp(op) && id + 3 <= ID_LIMIT
  {
    match op
    case Nop => [Plain(0, [])]
    case Kill => [Plain(252, [])]
    case Al2p(rd, ra, offset) => ArithmeticCalls(l, ra, offset, id) + StoreCalls(l, rd, id + 2)
  }

  function ArithmeticCalls(l: Layout, ra: nat, offset: u32, id: u32): (calls: seq<Call>)
    requires ValidLayout(l) && IsRegister(ra) && id + 3 <= ID_LIMIT
    ensures |calls| == 3
  {
    [LoadCall(l, ra), Typed(43, l.typeU32, [offset]), Typed(128, l.typeU32, [id, id + 1])]
  }

  function ResultCount(op: Op): nat { if op.Al2p? then 3 else 0 }

  lemma OpCallsRoom(l: Layout, op: Op, id: u32)
    requires ValidLayout(l) && ValidOp(op) && id + 3 <= ID_LIMIT
    ensures CountResults(OpCalls(l, op, id)) == ResultCount(op)
    ensures AllEmittable(OpCalls(l, op, id))
  {
    if op.Al2p? {
      var calls := ArithmeticCalls(l, op.ra, op.offset, id);
      CountThree(calls[0], calls[1], calls[2]);
      CountAppend(calls, StoreCalls(l, op.rd, id + 2));
    }
  }

  lemma CountThree(a: Call, b: Call, c: Call)
    requires HasResult(a) && HasResult(b) && HasResult(c)
    ensures CountResults([a, b, c]) == 3
  {
    assert [a, b, c][1..] == [b, c] && [b, c][1..] == [c];
    assert CountResults([c]) == 1 && CountResults([b, c]) == 2;
  }

  lemma RunSnoc(s: State, calls: seq<Call>, c: Call)
    requires Room(s.nextId, calls + [c])
    ensures Room(s.nextId, calls) && Room(Run(s, calls).nextId, [c])
    ensures Run(s, calls + [c]) == Apply(Run(s, calls), c)
  {
    RunAppend(s, calls, [c]);
    RunOne(Run(s, calls), c);
  }

  lemma {:induction false} AllResults(calls: seq<Call>)
    requires forall k :: 0 <= k < |calls| ==> HasResult(calls[k])
    ensures CountResults(calls) == |calls|
  {
    if calls != [] {
      AllResults(calls[1..]);
    }
  }

  /** A longer prefix of an emission plan is the shorter one and one more call. */
  lemma RunPrefix(s: State, calls: seq<Call>, k: nat)
    requires k < |calls| && (forall j :: 0 <= j < |calls| ==> HasResult(calls[j])) && s.nextId + |calls| <= ID_LIMIT
    ensures Room(s.nextId, calls[..k]) && Room(s.nextId, calls[..k + 1])
    ensures HasResult(calls[k])
    ensures Run(s, calls[..k]).nextId == s.nextId + k
    ensures Run(s, calls[..k + 1]) == Apply(Run(s, calls[..k]), calls[k])
  {
    AllResults(calls[..k]);
    AllResults(calls[..k + 1]);
    assert calls[..k + 1] == calls[..k] + [calls[k]];
    RunSnoc(s, calls[..k], calls[k]);
  }

  // -- The decoder -----------------------------------------------------------------

  /** The emitter went from state `s` to `t` by appending the code for `op`. */
  ghost predicate Emitted(s: State, t: State, l: Layout, op: Op) {
    && ValidLayout(l) && ValidOp(op) && s.nextId + 3 <= ID_LIMIT
    && Room(s.nextId, OpCalls(l, op, s.nextId))
    && t == Run(s, OpCalls(l, op, s.nextId))
  }

  datatype Outcome = Translated | Panicked | Ignored

  /** The bits the generated dispatch chain compares. */
  lemma OpcodeBits(w: u128)
    ensures Or(Shl(128, And(Shr(w, 91), 0x1), 12), Shl(128, And(w, 0xfff), 0)) == Opcode(w)
  {
    Pow2Values();
    Pow2Monotone(32, 128);
    var high, low := BitField(w, 91, 1), BitField(w, 0, 12);
    AndMask(Shr(w, 91), 1);
    AndMask(w, 12);
    RaiseBound(0, 1, high, 1);
    Raise12(high);
    LowExact(Raise(high, 12), 128);
    LowExact(low, 128);
    OrDisjoint(high, low, 12);
  }

  lemma Raise12(a: nat)
    ensures Raise(a, 12) == 4096 * a
  {
    Raise8(a);
    Raise4(256 * a);
    RaiseTwice(a, 8, 4);
  }

  lemma FieldBits(w: u128, low: nat, width: nat)
    ensures And(Shr(w, low), Pow2(width) - 1) == BitField(w, low, width)
  {
    AndMask(Shr(w, low), width);
  }

  /** The emission plan of `init`, call by call. */
  lemma InitPlan(id: u32, tables: seq<Table>)
    requires ValidTables(tables) && id + 304 <= ID_LIMIT
    ensures InitShaped(InitCalls(id, tables), id, tables)
  {
    forall i, j | 2 <= i <= 4 && 0 <= j < 12
      ensures InitCalls(id, tables)[13 + 12 * (i - 2) + j] == ResultFirst(23, [tables[j][i], i])
    {
      VectorPlan(id, tables, i, j);
    }
  }

  ghost predicate InitShaped(plan: seq<Call>, id: u32, tables: seq<Table>) {
    && |plan| == 304 && id + 304 <= ID_LIMIT
    && (forall k :: 0 <= k < 304 ==> HasResult(plan[k]))
    && ScalarsPlanned(plan)
    && VectorsPlanned(plan, tables)
    && plan[49] == ResultFirst(32, [7, id + 3])
    && (forall k :: 50 <= k < 304 ==> plan[k] == Typed(59, id + 49, [7]))
  }

  ghost predicate ScalarsPlanned(plan: seq<Call>) {
    |plan| == 304 && forall k :: 0 <= k < 13 ==> plan[k] == ScalarCall(k)
  }

  /** The vector declarations of a plan, by component count and table. */
  ghost predicate VectorsPlanned(plan: seq<Call>, tables: seq<Table>) {
    && |plan| == 304 && ValidTables(tables)
    && forall i, j :: 2 <= i <= 4 && 0 <= j < 12 ==> plan[13 + 12 * (i - 2) + j] == ResultFirst(23, [tables[j][i], i])
  }

  /** The scalar types of the plan: void, the eight integer types, the three float types and bool. */
  lemma ScalarPlan(id: u32, tables: seq<Table>)
    requires ValidTables(tables) && id + 304 <= ID_LIMIT
    ensures InitCalls(id, tables)[..13] == [
      ResultFirst(19, []),
      ResultFirst(21, [8, 0]), ResultFirst(21, [16, 0]), ResultFirst(21, [32, 0]), ResultFirst(21, [64, 0]),
      ResultFirst(21, [8, 1]), ResultFirst(21, [16, 1]), ResultFirst(21, [32, 1]), ResultFirst(21, [64, 1]),
      ResultFirst(22, [16]), ResultFirst(22, [32]), ResultFirst(22, [64]), ResultFirst(20, [])]
  {
    InitPlan(id, tables);
    assert forall k :: 0 <= k < 13 ==> InitCalls(id, tables)[k] == ScalarCall(k);
  }

  /** Behind them: for each component count from 2 to 4 the vectors of the twelve tables, the pointer to unsigned 32-bit
      words, and the 254 register variables. */
  lemma OtherPlan(id: u32, tables: seq<Table>, k: nat)
    requires ValidTables(tables) && id + 304 <= ID_LIMIT && 13 <= k < 304
    ensures InitCalls(id, tables)[k] ==
            if k < 49 then ResultFirst(23, [tables[(k - 13) % 12][2 + (k - 13) / 12], 2 + (k - 13) / 12])
            else if k == 49 then ResultFirst(32, [7, id + 3]) else Typed(59, id + 49, [7])
  {
    InitPlan(id, tables);
    if k < 49 {
      assert InitCalls(id, tables)[k] == Vectors(tables, 36)[k - 13];
    }
  }

  lemma VectorPlan(id: u32, tables: seq<Table>, i: nat, j: nat)
    requires ValidTables(tables) && id + 304 <= ID_LIMIT && 2 <= i <= 4 && j < 12
    ensures InitCalls(id, tables)[13 + 12 * (i - 2) + j] == ResultFirst(23, [tables[j][i], i])
  {
    var m := 12 * (i - 2) + j;
    assert m % 12 == j && 2 + m / 12 == i;
    assert InitCalls(id, tables)[13 + m] == Vectors(tables, 36)[m];
  }

  /** The emitter after load, constant and addition; they take the next three IDs. */
  function Summed(s: State, l: Layout, ra: nat, offset: u32): (t: State)
    requires ValidLayout(l) && IsRegister(ra) && s.nextId + 3 <= ID_LIMIT
    ensures t.nextId == s.nextId + 3
  {
    var s1 := Apply(s, LoadCall(l, ra));
    var s2 := Apply(s1, Typed(43, l.typeU32, [offset]));
    Apply(s2, Typed(128, l.typeU32, [s.nextId, s.nextId + 1]))
  }

  /** AL2P's four steps, one after the other. */
  lemma Al2pRun(s: State, l: Layout, op: Op)
    requires ValidLayout(l) && op.Al2p? && ValidOp(op) && s.nextId + 3 <= ID_LIMIT
    ensures Room(s.nextId, OpCalls(l, op, s.nextId))
    ensures Room(s.nextId + 3, StoreCalls(l, op.rd, s.nextId + 2))
    ensures Run(s, OpCalls(l, op, s.nextId)) ==
            Run(Summed(s, l, op.ra, op.offset), StoreCalls(l, op.rd, s.nextId + 2))
  {
    OpCallsRoom(l, op, s.nextId);
    RunArithmetic(s, l, op.ra, op.offset, StoreCalls(l, op.rd, s.nextId + 2));
  }

  lemma RunArithmetic(s: State, l: Layout, ra: nat, offset: u32, rest: seq<Call>)
    requires ValidLayout(l) && IsRegister(ra) && s.nextId + 3 <= ID_LIMIT
    requires Room(s.nextId, ArithmeticCalls(l, ra, offset, s.nextId) + rest)
    ensures Room(s.nextId + 3, rest)
    ensures Run(s, ArithmeticCalls(l, ra, offset, s.nextId) + rest) == Run(Summed(s, l, ra, offset), rest)
  {
    RunThreeThen(s, LoadCall(l, ra), Typed(43, l.typeU32, [offset]), Typed(128, l.typeU32, [s.nextId, s.nextId + 1]),
                 rest);
  }

  lemma Al2pEmitted(s: State, t: State, l: Layout, op: Op)
    requires ValidLayout(l) && op.Al2p? && ValidOp(op) && s.nextId + 3 <= ID_LIMIT
    requires Room(s.nextId + 3, StoreCalls(l, op.rd, s.nextId + 2))
    requires t == Run(Summed(s, l, op.ra, op.offset), StoreCalls(l, op.rd, s.nextId + 2))
    ensures Emitted(s, t, l, op)
  {
    Al2pRun(s, l, op);
  }

  lemma RunThreeThen(s: State, a: Call, b: Call, c: Call, rest: seq<Call>)
    requires HasResult(a) && HasResult(b) && HasResult(c) && s.nextId + 3 <= ID_LIMIT
    requires Room(s.nextId, [a, b, c] + rest)
    ensures Room(s.nextId + 3, rest)
    ensures Run(s, [a, b, c] + rest) == Run(Apply(Apply(Apply(s, a), b), c), rest)
  {
    RunThree(s, a, b, c);
    RunAppend(s, [a, b, c], rest);
  }

  lemma RunThree(s: State, a: Call, b: Call, c: Call)
    requires HasResult(a) && HasResult(b) && HasResult(c) && s.nextId + 3 <= ID_LIMIT
    ensures Room(s.nextId, [a, b, c])
    ensures Run(s, [a, b, c]) == Apply(Apply(Apply(s, a), b), c)
  {
    CountThree(a, b, c);
    assert [a, b, c] == [a] + [b, c] && [b, c] == [b] + [c];
    RunAppend(s, [a], [b, c]);
    RunOne(s, a);
    RunAppend(Apply(s, a), [b], [c]);
    RunOne(Apply(s, a), b);
    RunOne(Apply(Apply(s, a), b), c);
  }

  /** `Al2p` panics exactly when a register is 254 or the bit-size field is not 32 bits. */
  lemma Al2pDecode(w: u128)
    ensures And(Shr(w, 16), 0xff) == Rd(w) && And(Shr(w, 24), 0xff) == Ra(w)
    ensures And(Shr(w, 40), 0x7ff) == Offset(w) && And(Shr(w, 74), 0x3) == Bop(w)
    ensures Opcode(w) == 0x920 ==>
      (Decode(w) == if Rd(w) != 254 && Ra(w) != 254 && Bop(w) == 0 then Some(Al2p(Rd(w), Ra(w), Offset(w))) else None)
  {
    Pow2Values();
    FieldBits(w, 16, 8);
    FieldBits(w, 24, 8);
    FieldBits(w, 40, 11);
    FieldBits(w, 74, 2);
  }

  /** A plan of 304 calls that all allocate an ID, and room for them. */
  ghost predicate Planned(s: State, plan: seq<Call>) {
    |plan| == 304 && (forall k :: 0 <= k < 304 ==> HasResult(plan[k])) && s.nextId + 304 <= ID_LIMIT
  }

  /** The emitter, started in state `s`, after the first `k` calls of the plan. */
  ghost function RunTo(s: State, plan: seq<Call>, k: nat): (t: State)
    requires Planned(s, plan) && k <= 304
    ensures t.nextId == s.nextId + k
    decreases k, plan
  {
    if k == 0 then s else Apply(RunTo(s, plan, k - 1), plan[k - 1])
  }

  lemma {:induction false} RunToIsRun(s: State, plan: seq<Call>, k: nat)
    requires Planned(s, plan) && k <= 304
    ensures Room(s.nextId, plan[..k]) && Run(s, plan[..k]) == RunTo(s, plan, k)
  {
    if k == 0 {
      assert plan[..0] == [];
    } else {
      RunToIsRun(s, plan, k - 1);
      RunPrefix(s, plan, k - 1);
    }
  }

  /** Slots 2 to 4 of every type table are the same. */
  ghost predicate SameSlots(before: seq<Table>, after: seq<Table>) {
    && ValidTables(before) && ValidTables(after)
    && forall j, i :: 0 <= j < 12 && 2 <= i < 5 ==> after[j][i] == before[j][i]
  }

  /** The tables once every scalar type, numbered from `id + 1` on, is entered in slot 1. */
  function ScalarTables(tables: seq<Table>, id: u32): (after: seq<Table>)
    requires ValidTables(tables) && id + 304 <= ID_LIMIT
    ensures ValidTables(after)
  {
    [tables[0][1 := id + 1], tables[1][1 := id + 2], tables[2][1 := id + 3], tables[3][1 := id + 4],
     tables[4][1 := id + 5], tables[5][1 := id + 6], tables[6][1 := id + 7], tables[7][1 := id + 8],
     tables[8][1 := id + 9], tables[9][1 := id + 10], tables[10][1 := id + 11], tables[11][1 := id + 12]]
  }

  lemma ScalarTablesKeepSlots(tables: seq<Table>, id: u32)
    requires ValidTables(tables) && id + 304 <= ID_LIMIT
    ensures SameSlots(tables, ScalarTables(tables, id))
    ensures ScalarTables(tables, id)[2][1] == id + 3
  {
    var after := ScalarTables(tables, id);
    forall j | 0 <= j < 12 ensures after[j] == tables[j][1 := id + 1 + j] {
    }
  }

  class Decoder {
    /** The opcodes the dispatch chain tests for. */
    const branches: Branches
    var ir: Emitter
    var typeVoid: u32
    var typePtrU32: u32
    var typeU8: Table
    var typeU16: Table
    var typeU32: Table
    var typeU64: Table
    var typeS8: Table
    var typeS16: Table
    var typeS32: Table
    var typeS64: Table
    var typeF16: Table
    var typeF32: Table
    var typeF64: Table
    var typeBool: Table
    var regs: array<u32>

    ghost predicate Valid()
      reads this
    {
      regs.Length == REGISTERS
    }

    function Tables(): (tables: seq<Table>)
      reads this
      ensures ValidTables(tables)
    {
      [typeU8, typeU16, typeU32, typeU64, typeS8, typeS16, typeS32, typeS64, typeF16, typeF32, typeF64, typeBool]
    }

    ghost function LayoutNow(): (l: Layout)
      requires Valid()
      reads this, regs
      ensures ValidLayout(l)
    {
      Layout(typeU32[1], regs[..])
    }

    /** The program never builds a decoder; any initial slot value will do. */
    constructor (ir: Emitter, branches: Branches, slot: u32)
      ensures Valid() && this.ir == ir && this.branches == branches && fresh(regs)
    {
      this.branches := branches;
      this.ir, typeVoid, typePtrU32 := ir, slot, slot;
      var table := [slot, slot, slot, slot, slot];
      typeU8, typeU16, typeU32, typeU64 := table, table, table, table;
      typeS8, typeS16, typeS32, typeS64 := table, table, table, table;
      typeF16, typeF32, typeF64, typeBool := table, table, table, table;
      regs := new u32[REGISTERS](_ => slot);
    }

    /** The translation prologue: types, then one function-local variable per register. */
    method Init()
      requires Valid() && ir.nextId + 304 <= ID_LIMIT
      modifies this, ir, regs
      ensures Valid() && ir == old(ir) && regs == old(regs)
      ensures Room(old(ir.nextId), InitCalls(old(ir.nextId), old(Tables())))
      ensures ir.Current() == Run(old(ir.Current()), InitCalls(old(ir.nextId), old(Tables())))
      ensures LayoutNow() == LayoutAt(old(ir.nextId))
    {
      ghost var plan := InitCalls(ir.nextId, Tables());
      InitPlan(ir.nextId, Tables());
      InitAsPlanned(plan);
      assert plan[..304] == plan;
    }

    /** The body of `init`, one call of the plan after the other. */
    method InitAsPlanned(ghost plan: seq<Call>)
      requires Valid() && ir.nextId + 304 <= ID_LIMIT && InitShaped(plan, ir.nextId, Tables())
      modifies this, ir, regs
      ensures Valid() && ir == old(ir) && regs == old(regs)
      ensures Room(old(ir.nextId), plan[..304]) && ir.Current() == Run(old(ir.Current()), plan[..304])
      ensures LayoutNow() == LayoutAt(old(ir.nextId))
    {
      ghost var s := ir.Current();
      DeclareTypes(s, plan);
      DeclareRegisters(s, plan);
      RunToIsRun(s, plan, 304);
      assert regs[..] == LayoutAt(s.nextId).regs;
    }

    method DeclareTypes(ghost s: State, ghost plan: seq<Call>)
      requires Valid() && Planned(s, plan) && InitShaped(plan, s.nextId, Tables()) && ir.Current() == s
      modifies this, ir
      ensures ir == old(ir) && regs == old(regs) && ir.Current() == RunTo(s, plan, 50)
      ensures typeU32[1] == s.nextId + 3 && typePtrU32 == s.nextId + 49
    {
      ghost var before := Tables();
      DeclareScalars(s, plan);
      ScalarTablesKeepSlots(before, s.nextId);
      DeclareVectors(s, plan, before);
      typePtrU32 := ir.EmitTypePointer(7, typeU32[1]);
      assert ir.Current() == RunTo(s, plan, 50);
    }

    method DeclareScalars(ghost s: State, ghost plan: seq<Call>)
      requires Planned(s, plan) && ScalarsPlanned(plan) && ir.Current() == s
      modifies `typeVoid, `typeU8, `typeU16, `typeU32, `typeU64, `typeS8, `typeS16, `typeS32, `typeS64
      modifies `typeF16, `typeF32, `typeF64, `typeBool, ir
      ensures ir.Current() == RunTo(s, plan, 13)
      ensures Tables() == ScalarTables(old(Tables()), s.nextId)
    {
      DeclareUnsigned(s, plan);
      DeclareSigned(s, plan);
      DeclareFloats(s, plan);
    }

    method DeclareUnsigned(ghost s: State, ghost plan: seq<Call>)
      requires Planned(s, plan) && ScalarsPlanned(plan) && ir.Current() == s
      modifies `typeVoid, `typeU8, `typeU16, `typeU32, `typeU64, ir
      ensures ir.Current() == RunTo(s, plan, 5)
      ensures typeU8 == old(typeU8)[1 := s.nextId + 1]
      ensures typeU16 == old(typeU16)[1 := s.nextId + 2]
      ensures typeU32 == old(typeU32)[1 := s.nextId + 3]
      ensures typeU64 == old(typeU64)[1 := s.nextId + 4]
    {
      typeVoid := ir.EmitTypeVoid();
      assert ir.Current() == RunTo(s, plan, 1);
      typeU8 := DeclareInt(typeU8, 8, 0, s, plan, 1);
      typeU16 := DeclareInt(typeU16, 16, 0, s, plan, 2);
      typeU32 := DeclareInt(typeU32, 32, 0, s, plan, 3);
      typeU64 := DeclareInt(typeU64, 64, 0, s, plan, 4);
    }

    method DeclareSigned(ghost s: State, ghost plan: seq<Call>)
      requires Planned(s, plan) && ScalarsPlanned(plan) && ir.Current() == RunTo(s, plan, 5)
      modifies `typeS8, `typeS16, `typeS32, `typeS64, ir
      ensures ir.Current() == RunTo(s, plan, 9)
      ensures typeS8 == old(typeS8)[1 := s.nextId + 5]
      ensures typeS16 == old(typeS16)[1 := s.nextId + 6]
      ensures typeS32 == old(typeS32)[1 := s.nextId + 7]
      ensures typeS64 == old(typeS64)[1 := s.nextId + 8]
    {
      typeS8 := DeclareInt(typeS8, 8, 1, s, plan, 5);
      typeS16 := DeclareInt(typeS16, 16, 1, s, plan, 6);
      typeS32 := DeclareInt(typeS32, 32, 1, s, plan, 7);
      typeS64 := DeclareInt(typeS64, 64, 1, s, plan, 8);
    }

    method DeclareFloats(ghost s: State, ghost plan: seq<Call>)
      requires Planned(s, plan) && ScalarsPlanned(plan) && ir.Current() == RunTo(s, plan, 9)
      modifies `typeF16, `typeF32, `typeF64, `typeBool, ir
      ensures ir.Current() == RunTo(s, plan, 13)
      ensures typeF16 == old(typeF16)[1 := s.nextId + 9]
      ensures typeF32 == old(typeF32)[1 := s.nextId + 10]
      ensures typeF64 == old(typeF64)[1 := s.nextId + 11]
      ensures typeBool == old(typeBool)[1 := s.nextId + 12]
    {
      typeF16 := DeclareFloat(typeF16, 16, s, plan, 9);
      typeF32 := DeclareFloat(typeF32, 32, s, plan, 10);
      typeF64 := DeclareFloat(typeF64, 64, s, plan, 11);
      var t := ir.EmitTypeBool();
      assert ir.Current() == RunTo(s, plan, 13);
      typeBool := typeBool[1 := t];
    }

    method DeclareInt(table: Table, width: u32, sign: u32, ghost s: State, ghost plan: seq<Call>, ghost k: nat)
      returns (r: Table)
      requires width in {8, 16, 32, 64} && sign <= 1
      requires Planned(s, plan) && k < 304 && ir.Current() == RunTo(s, plan, k)
      requires plan[k] == ResultFirst(21, [width, sign])
      modifies ir
      ensures r == table[1 := s.nextId + k] && ir.Current() == RunTo(s, plan, k + 1)
    {
      var t := ir.EmitTypeInt(width, sign);
      r := table[1 := t];
    }

    method DeclareFloat(table: Table, width: u32, ghost s: State, ghost plan: seq<Call>, ghost k: nat)
      returns (r: Table)
      requires width in {16, 32, 64}
      requires Planned(s, plan) && k < 304 && ir.Current() == RunTo(s, plan, k) && plan[k] == ResultFirst(22, [width])
      modifies ir
      ensures r == table[1 := s.nextId + k] && ir.Current() == RunTo(s, plan, k + 1)
    {
      var t := ir.EmitTypeFloat(width);
      r := table[1 := t];
    }

    method DeclareVectors(ghost s: State, ghost plan: seq<Call>, ghost before: seq<Table>)
      requires Valid() && Planned(s, plan) && ir.Current() == RunTo(s, plan, 13)
      requires VectorsPlanned(plan, before) && SameSlots(before, Tables())
      modifies ir
      ensures ir.Current() == RunTo(s, plan, 49)
    {
      for i := 2 to 5
        invariant ir.Current() == RunTo(s, plan, 13 + 12 * (i - 2))
      {
        var tables := Tables();
        for j := 0 to 12
          invariant ir.Current() == RunTo(s, plan, 13 + 12 * (i - 2) + j)
        {
          var _ := ir.EmitTypeVector(tables[j][i], i);
        }
      }
    }

    method DeclareRegisters(ghost s: State, ghost plan: seq<Call>)
      requires Valid() && Planned(s, plan) && ir.Current() == RunTo(s, plan, 50)
      requires forall k :: 50 <= k < 304 ==> plan[k] == Typed(59, typePtrU32, [7])
      modifies ir, regs
      ensures ir.Current() == RunTo(s, plan, 304)
      ensures forall k :: 0 <= k < REGISTERS ==> regs[k] == s.nextId + 50 + k
    {
      for i := 0 to regs.Length
        invariant forall k :: 0 <= k < i ==> regs[k] == s.nextId + 50 + k
        invariant ir.Current() == RunTo(s, plan, 50 + i)
      {
        regs[i] := ir.EmitVariable(typePtrU32, 7);
      }
    }

    method LoadReg(reg: nat) returns (r: Result<u32, ()>)
      requires Valid() && ir.nextId < ID_LIMIT
      modifies ir
      ensures r.Ok? <==> IsRegister(reg)
      ensures r.Ok? ==> r.value == old(ir.nextId)
      ensures r.Ok? ==> ir.Current() == Apply(old(ir.Current()), LoadCall(LayoutNow(), reg))
      ensures r.Err? ==> ir.Current() == old(ir.Current())
    {
      if reg == 255 {
        var zero := ir.EmitConstantTyped(typeU32[1], Unsigned(32, 0));
        return Ok(zero);
      }
      if !(reg < regs.Length) {
        return Err(());
      }
      var ptr := regs[reg];
      var v := ir.EmitLoad(typeU32[1], ptr);
      return Ok(v);
    }

    method StoreReg(reg: nat, val: u32) returns (r: Result<(), ()>)
      requires Valid()
      modifies ir
      ensures r.Ok? <==> IsRegister(reg)
      ensures r.Ok? ==> ir.Current() == Run(old(ir.Current()), StoreCalls(LayoutNow(), reg, val))
      ensures r.Err? ==> ir.Current() == old(ir.Current())
    {
      if reg == 255 {
        return Ok(());
      }
      if !(reg < regs.Length) {
        return Err(());
      }
      var ptr := regs[reg];
      RunOne(ir.Current(), Plain(62, [ptr, val]));
      ir.EmitStore(ptr, val);
      return Ok(());
    }

    method Al2p(inst: u128) returns (o: Outcome)
      requires Valid() && ir.nextId + 3 <= ID_LIMIT && Opcode(inst) == 0x920
      modifies ir
      ensures o == if Decode(inst).Some? then Translated else Panicked
      ensures o == Translated ==> Emitted(old(ir.Current()), ir.Current(), LayoutNow(), Decode(inst).value)
    {
      Al2pDecode(inst);
      var rd := And(Shr(inst, 16), 0xff);
      var ra := And(Shr(inst, 24), 0xff);
      var raOffset := And(Shr(inst, 40), 0x7ff);
      var bop := And(Shr(inst, 74), 0x3);
      o := EmitAl2p(rd, ra, raOffset, bop);
    }

    /** The register and the offset, added. */
    method EmitSum(ra: nat, raOffset: u32) returns (r: Result<u32, ()>)
      requires Valid() && ir.nextId + 3 <= ID_LIMIT
      modifies ir
      ensures r.Ok? <==> IsRegister(ra)
      ensures r.Ok? ==> r.value == old(ir.nextId) + 2
      ensures r.Ok? ==> ir.Current() == Summed(old(ir.Current()), LayoutNow(), ra, raOffset)
    {
      var base := LoadReg(ra);
      if base.Err? {
        return Err(());
      }
      var offset := ir.EmitConstantTyped(typeU32[1], Unsigned(32, raOffset));
      var dstVal := ir.EmitIAdd(typeU32[1], base.value, offset);
      return Ok(dstVal);
    }

    /** `al2p` after field extraction: the assertions and the emitted code. Register 254 passes the
        first assertion and fails the one in `load_reg`. */
    method EmitAl2p(rd: nat, ra: nat, raOffset: u32, bop: nat) returns (o: Outcome)
      requires Valid() && ir.nextId + 3 <= ID_LIMIT && rd < 256 && ra < 256 && raOffset < 2048
      modifies ir
      ensures o == if rd != 254 && ra != 254 && bop == 0 then Translated else Panicked
      ensures o == Translated ==> Emitted(old(ir.Current()), ir.Current(), LayoutNow(), Sass.Op.Al2p(rd, ra, raOffset))
    {
      ghost var s, l := ir.Current(), LayoutNow();
      if !(ra <= REGISTERS || ra == 255) || bop != 0 {
        return Panicked;
      }
      var sum := EmitSum(ra, raOffset);
      if sum.Err? {
        return Panicked;
      }
      var stored := StoreReg(rd, sum.value);
      if stored.Err? {
        return Panicked;
      }
      Al2pEmitted(s, ir.Current(), l, Sass.Op.Al2p(rd, ra, raOffset));
      return Translated;
    }

    method Nop(inst: u128)
      requires Valid()
      modifies ir
      ensures ir.Current() == Apply(old(ir.Current()), Plain(0, []))
    {
      ir.EmitNop();
    }

    method Kill(inst: u128)
      requires Valid()
      modifies ir
      ensures ir.Current() == Apply(old(ir.Current()), Plain(252, []))
    {
      ir.EmitKill();
    }

    /** The dispatch chain. A word whose opcode no branch tests for falls through it without any effect; the
        branches of instructions that are not implemented end in a panic. */
    method Translate(inst: u128) returns (o: Outcome)
      requires Valid() && ir.nextId + 3 <= ID_LIMIT
      modifies ir
      ensures Valid() && LayoutNow() == old(LayoutNow())
      ensures o == Translated <==> Decode(inst).Some?
      ensures o == Ignored <==> Opcode(inst) !in branches
      ensures o == Panicked <==> !Passes(inst, branches)
      ensures o == Translated ==> Emitted(old(ir.Current()), ir.Current(), LayoutNow(), Decode(inst).value)
      ensures o == Ignored ==> ir.Current() == old(ir.Current())
      ensures Opcode(inst) == 0x918 ==> o == Translated && ir.Current() == Apply(old(ir.Current()), Plain(0, []))
      ensures Opcode(inst) == 0x95b ==> o == Translated && ir.Current() == Apply(old(ir.Current()), Plain(252, []))
      ensures Opcode(inst) == 0x920 ==>
        (o == Translated <==> And(Shr(inst, 16), 0xff) != 254 && And(Shr(inst, 24), 0xff) != 254 &&
                              And(Shr(inst, 74), 0x3) == 0)
    {
      Al2pDecode(inst);
      var opcode := Or(Shl(128, And(Shr(inst, 91), 0x1), 12), Shl(128, And(inst, 0xfff), 0));
      OpcodeBits(inst);
      if opcode == 0x920 {
        o := Al2p(inst);
      } else if opcode == 0x95b {
        RunOne(ir.Current(), Plain(252, []));
        Kill(inst);
        o := Translated;
      } else if opcode == 0x918 {
        RunOne(ir.Current(), Plain(0, []));
        Nop(inst);
        o := Translated;
      } else if opcode in branches {
        o := Panicked;
      } else {
        o := Ignored;
      }
    }
  }
}
