/** The append-only SPIR-V emitter: a word vector, an ID counter and the index of the bound word. */
module SpirvEmitter {
  import opened Bits
  import opened Wrappers
  import opened SpirvStream
  import opened SpirvText
  import opened SpirvLiteral

  const ID_LIMIT := 0xFFFF_FFFF  // the counter may still be incremented below this value

  // -- Emit calls as values ------------------------------------------------------

  /** One `emit_*` call. Every emitter method has one of three shapes: no result, the fresh result
      ID as first operand, or a result type followed by the fresh result ID. */
  datatype Call =
    | Plain(opcode: u16, operands: seq<u32>)
    | ResultFirst(opcode: u16, operands: seq<u32>)
    | Typed(opcode: u16, ty: u32, operands: seq<u32>)

  datatype Shape = NoResult | First | Second

  /** Where the result ID of an instruction is, by opcode, over all the opcodes the emitter uses. */
  function ShapeOf(opcode: u16): Shape {
    if opcode in {0, 5, 6, 10, 14, 15, 16, 17, 56, 62, 63, 71, 72, 74, 99, 224, 225, 228,
                  246, 247, 249, 250, 251, 252, 253, 254, 255} then NoResult
    else if opcode == 11 || 19 <= opcode <= 33 || opcode == 73 || opcode == 248 then First
    else Second
  }

  function HasResult(c: Call): bool { !c.Plain? }

  /** The instruction a call appends when the next free ID is `id`. */
  function InstOf(c: Call, id: u32): Inst {
    match c
    case Plain(op, operands) => Inst(op, operands)
    case ResultFirst(op, operands) => Inst(op, [id] + operands)
    case Typed(op, ty, operands) => Inst(op, [ty, id] + operands)
  }

  /** The call is one some emitter method makes, and its word count fits. */
  predicate Emittable(c: Call) {
    && ShapeOf(c.opcode) == (match c case Plain(_, _) => NoResult
                                     case ResultFirst(_, _) => First
                                     case Typed(_, _, _) => Second)
    && (c.opcode == 0 ==> c.operands == [])
    && |c.operands| <= 65534 - (match c case Plain(_, _) => 0 case ResultFirst(_, _) => 1 case Typed(_, _, _) => 2)
  }

  ghost predicate AllEmittable(calls: seq<Call>) { forall k :: 0 <= k < |calls| ==> Emittable(calls[k]) }

  datatype State = State(words: seq<u32>, nextId: u32, boundIdx: nat)

  function CountResults(calls: seq<Call>): (n: nat)
    ensures n <= |calls|
  {
    if calls == [] then 0 else (if HasResult(calls[0]) then 1 else 0) + CountResults(calls[1..])
  }

  /** The counter does not overflow while the calls run. */
  predicate Room(id: u32, calls: seq<Call>) { id + CountResults(calls) <= ID_LIMIT }

  function NextId(c: Call, id: u32): u32
    requires Room(id, [c])
  {
    if HasResult(c) then assert CountResults([c]) == 1; id + 1 else id
  }

  function Apply(s: State, c: Call): State
    requires Room(s.nextId, [c])
  {
    State(s.words + EncodeInst(InstOf(c, s.nextId)), NextId(c, s.nextId), s.boundIdx)
  }

  /** The instructions a list of calls appends. */
  function InstsOf(calls: seq<Call>, id: u32): (insts: seq<Inst>)
    requires Room(id, calls)
    ensures |insts| == |calls|
  {
    if calls == [] then []
    else [InstOf(calls[0], id)] + InstsOf(calls[1..], if HasResult(calls[0]) then id + 1 else id)
  }

  function Run(s: State, calls: seq<Call>): (t: State)
    requires Room(s.nextId, calls)
    ensures t.nextId == s.nextId + CountResults(calls) && t.boundIdx == s.boundIdx
    decreases |calls|
  {
    if calls == [] then s
    else Run(State(s.words + EncodeInst(InstOf(calls[0], s.nextId)),
                   if HasResult(calls[0]) then s.nextId + 1 else s.nextId, s.boundIdx), calls[1..])
  }

  lemma {:induction false} CountAppend(a: seq<Call>, b: seq<Call>)
    ensures CountResults(a + b) == CountResults(a) + CountResults(b)
  {
    if a == [] {
      assert a + b == b;
    } else {
      CountAppend(a[1..], b);
      assert (a + b)[1..] == a[1..] + b;
    }
  }

  lemma RunOne(s: State, c: Call)
    requires Room(s.nextId, [c])
    ensures Run(s, [c]) == Apply(s, c)
  {
    assert Run(Apply(s, c), []) == Apply(s, c);
  }

  lemma {:induction false} RunAppend(s: State, a: seq<Call>, b: seq<Call>)
    requires Room(s.nextId, a + b)
    ensures Room(s.nextId, a) && Room(Run(s, a).nextId, b)
    ensures Run(s, a + b) == Run(Run(s, a), b)
    decreases |a|
  {
    CountAppend(a, b);
    if a == [] {
      assert a + b == b;
    } else {
      assert (a + b)[1..] == a[1..] + b;
      RunAppend(Run(s, a[..1]), a[1..], b) by {
        RunOne(s, a[0]);
        assert a[..1] == [a[0]];
        CountAppend(a[..1], a[1..] + b);
        assert a[..1] + (a[1..] + b) == a + b;
      }
      RunOne(s, a[0]);
      assert a[..1] == [a[0]];
    }
  }

  /** Running calls appends exactly the encoding of their instructions. */
  lemma {:induction false} RunWords(s: State, calls: seq<Call>)
    requires Room(s.nextId, calls)
    ensures Run(s, calls).words == s.words + Encode(InstsOf(calls, s.nextId))
    decreases |calls|
  {
    if calls != [] {
      var i := InstOf(calls[0], s.nextId);
      var t := State(s.words + EncodeInst(i), if HasResult(calls[0]) then s.nextId + 1 else s.nextId, s.boundIdx);
      RunWords(t, calls[1..]);
    }
  }

  lemma {:induction false} InstsAcceptable(calls: seq<Call>, id: u32)
    requires Room(id, calls) && AllEmittable(calls)
    ensures AllAcceptable(InstsOf(calls, id))
    decreases |calls|
  {
    if calls != [] {
      assert Emittable(calls[0]);
      InstsAcceptable(calls[1..], if HasResult(calls[0]) then id + 1 else id);
    }
  }

  // -- Whole modules -------------------------------------------------------------

  const EMPTY := State([], 1, 0)

  /** A new emitter after `emit_header`. */
  const STARTED := State([MAGIC, 0x00010500, 0, 0, 0], 1, 3)

  function Finalized(s: State): State {
    if s.boundIdx < |s.words| then s.(words := s.words[s.boundIdx := s.nextId]) else s
  }

  /** Walking an emitted module from word 5 recovers every emitted instruction in order, and the
      module is well formed, before and after `finalize`. */
  lemma EmissionInverse(calls: seq<Call>)
    requires AllEmittable(calls) && Room(1, calls)
    ensures var s := Run(STARTED, calls);
      && |s.words| >= HEADER_LENGTH
      && Walk(s.words[HEADER_LENGTH..]) == Some(InstsOf(calls, 1))
      && Finalized(s).words[HEADER_LENGTH..] == s.words[HEADER_LENGTH..]
      && WellFormed(s.words) && WellFormed(Finalized(s).words)
  {
    var insts := InstsOf(calls, 1);
    RunWords(STARTED, calls);
    InstsAcceptable(calls, 1);
    WalkOfEncode(insts);
  }

  /** Without a bound on the operands, the walk recovers the emitted instructions exactly when every word
      count fits in 16 bits. */
  lemma EmissionRecovered(calls: seq<Call>)
    requires Room(1, calls)
    ensures |Run(STARTED, calls).words| >= HEADER_LENGTH
    ensures Walk(Run(STARTED, calls).words[HEADER_LENGTH..]) == Some(InstsOf(calls, 1)) <==> AllFit(InstsOf(calls, 1))
  {
    var insts := InstsOf(calls, 1);
    RunWords(STARTED, calls);
    assert Run(STARTED, calls).words[HEADER_LENGTH..] == Encode(insts);
    WalkInvertsEncode(insts);
  }

  /** The result IDs of a list of instructions, found by opcode. */
  function ResultIds(insts: seq<Inst>): seq<u32>
  {
    if insts == [] then []
    else
      var i := insts[0];
      (match ShapeOf(i.opcode)
       case NoResult => []
       case First => i.operands[..if |i.operands| > 0 then 1 else 0]
       case Second => if |i.operands| > 1 then [i.operands[1]] else [])
      + ResultIds(insts[1..])
  }

  /** The numbers from `a` up, `n` of them. */
  function Range(a: nat, n: nat): (s: seq<nat>)
    ensures |s| == n && forall k :: 0 <= k < n ==> s[k] == a + k
  {
    seq(n, k => a + k)
  }

  lemma {:induction false} ResultIdsOfCalls(calls: seq<Call>, id: u32)
    requires AllEmittable(calls) && Room(id, calls)
    ensures ResultIds(InstsOf(calls, id)) == Range(id, CountResults(calls))
    decreases |calls|
  {
    if calls != [] {
      assert Emittable(calls[0]);
      ResultIdsOfCalls(calls[1..], if HasResult(calls[0]) then id + 1 else id);
    }
  }

  /** Reading the result IDs back out of the finished words gives 1, 2, ..., next_id - 1: no ID is
      defined twice, and the patched header bound exceeds them all. `finalize` changes that one
      word only. */
  lemma ResultIdsBelowBound(calls: seq<Call>)
    requires AllEmittable(calls) && Room(1, calls)
    ensures var s := Run(STARTED, calls); var words := Finalized(s).words;
      && |words| == |s.words| >= HEADER_LENGTH
      && Walk(words[HEADER_LENGTH..]).Some?
      && ResultIds(Walk(words[HEADER_LENGTH..]).value) == Range(1, s.nextId - 1)
      && words[3] == s.nextId
      && forall k :: 0 <= k < |words| && k != 3 ==> words[k] == s.words[k]
  {
    EmissionInverse(calls);
    ResultIdsOfCalls(calls, 1);
    RunWords(STARTED, calls);
  }

  // -- Entry points --------------------------------------------------------------

  /** What a consumer reads out of an OpEntryPoint's operands. */
  function ParseEntryPoint(operands: seq<u32>): Option<(u32, u32, seq<byte>, seq<u32>)> {
    if |operands| < 2 then None
    else
      match DecodeString(operands[2..])
      case None => None
      case Some(p) => Some((operands[0], operands[1], p.0, p.1))
  }

  /** An entry point's name and interface list are recovered, exactly for names without NUL. */
  lemma EntryPointRecovered(model: u32, func: u32, name: seq<byte>, interfaces: seq<u32>)
    ensures ParseEntryPoint([model, func] + EncodeString(name) + interfaces) == Some((model, func, name, interfaces))
            <==> 0 !in name
  {
    var rest := EncodeString(name) + interfaces;
    StringRoundTrip(name, interfaces);
    DropTwo(model, func, rest);
    assert [model, func] + EncodeString(name) + interfaces == [model, func] + rest;
  }

  lemma DropTwo(a: u32, b: u32, rest: seq<u32>)
    ensures ([a, b] + rest)[2..] == rest
  {
  }

  // -- The emitter ---------------------------------------------------------------

  lemma FirstWordBits(n: nat, opcode: u32)
    ensures Or(Shl(32, (1 + n) % 0x1_0000_0000, 16), And(opcode, 0xFFFF)) == FirstWord(opcode % 0x1_0000, n)
  {
    ShiftedCount(n);
    HeaderFields(opcode);
    Pow2Values();
    Raise16((1 + n) % 0x1_0000);
    OrDisjoint((1 + n) % 0x1_0000, opcode % 0x1_0000, 16);
  }

  lemma ShiftedCount(n: nat)
    ensures Shl(32, (1 + n) % 0x1_0000_0000, 16) == Raise((1 + n) % 0x1_0000, 16)
  {
    var m := (1 + n) % 0x1_0000_0000;
    Raise16(m);
    Raise16(m % 0x1_0000);
    LowWord(0x1_0000 * m);
    HighHalf(m);
    LowHalf(1 + n);
  }

  lemma LowHalf(n: nat)
    ensures n % 0x1_0000_0000 % 0x1_0000 == n % 0x1_0000
  {
    var m := n % 0x1_0000_0000;
    DivModUnique(n, 0x1_0000, 0x1_0000 * (n / 0x1_0000_0000) + m / 0x1_0000, m % 0x1_0000);
  }

  lemma HighHalf(m: nat)
    ensures 0x1_0000 * m % 0x1_0000_0000 == 0x1_0000 * (m % 0x1_0000)
  {
    DivModUnique(0x1_0000 * m, 0x1_0000_0000, m / 0x1_0000, 0x1_0000 * (m % 0x1_0000));
  }

  lemma LowWord(a: nat)
    ensures Low(a, 32) == a % 0x1_0000_0000
  {
    Pow2Values();
    ShrIsDivision(a, 32);
  }

  class Emitter {
    var words: seq<u32>
    var nextId: u32
    var boundIdx: nat

    ghost function Current(): State
      reads this
    {
      State(words, nextId, boundIdx)
    }

    constructor ()
      ensures Current() == EMPTY
    {
      words, nextId, boundIdx := [], 1, 0;
    }

    method AllocId() returns (id: u32)
      requires nextId < ID_LIMIT
      modifies this
      ensures id == old(nextId)
      ensures Current() == old(Current()).(nextId := id + 1)
    {
      id := nextId;
      nextId := nextId + 1;
    }

    /** Appends one instruction: a word count and opcode word, then the operands. */
    method EmitInst(opcode: u32, operands: seq<u32>)
      modifies this
      ensures Current() == old(Current()).(words := old(words) + EncodeInst(Inst(opcode % 0x1_0000, operands)))
      ensures words == old(words) + [(1 + |operands|) % 0x1_0000 * 0x1_0000 + opcode % 0x1_0000] + operands
    {
      var wc := (1 + |operands|) % 0x1_0000_0000;
      FirstWordBits(|operands|, opcode);
      words := words + [Or(Shl(32, wc, 16), And(opcode, 0xFFFF))];
      words := words + operands;
    }

    method TypedUn(op: u16, ty: u32, a: u32) returns (r: u32)
      requires nextId < ID_LIMIT
      modifies this
      ensures r == old(nextId) && Current() == Apply(old(Current()), Typed(op, ty, [a]))
      ensures words == old(words) + [0x4_0000 + op, ty, r, a]
    {
      r := AllocId();
      EmitInst(op, [ty, r, a]);
      assert [ty, r, a] == [ty, r] + [a];
    }

    method TypedBin(op: u16, ty: u32, a: u32, b: u32) returns (r: u32)
      requires nextId < ID_LIMIT
      modifies this
      ensures r == old(nextId) && Current() == Apply(old(Current()), Typed(op, ty, [a, b]))
      ensures words == old(words) + [0x5_0000 + op, ty, r, a, b]
    {
      r := AllocId();
      EmitInst(op, [ty, r, a, b]);
      assert [ty, r, a, b] == [ty, r] + [a, b];
    }

    method TypedTri(op: u16, ty: u32, a: u32, b: u32, c: u32) returns (r: u32)
      requires nextId < ID_LIMIT
      modifies this
      ensures r == old(nextId) && Current() == Apply(old(Current()), Typed(op, ty, [a, b, c]))
      ensures words == old(words) + [0x6_0000 + op, ty, r, a, b, c]
    {
      r := AllocId();
      EmitInst(op, [ty, r, a, b, c]);
      assert [ty, r, a, b, c] == [ty, r] + [a, b, c];
    }

    method EmitHeader()
      modifies this
      ensures Current() == State(old(words) + STARTED.words, old(nextId), |old(words)| + 3)
      ensures words == old(words) + [0x0723_0203, 0x0001_0500, 0, 0, 0]
    {
      words := words + [MAGIC];
      words := words + [0x00010500];
      words := words + [0];
      boundIdx := |words|;
      words := words + [0];
      words := words + [0];
    }

    method Finalize()
      modifies this
      ensures Current() == Finalized(old(Current()))
      ensures nextId == old(nextId)
      ensures words == if old(boundIdx) < |old(words)| then old(words)[old(boundIdx) := nextId] else old(words)
    {
      if boundIdx < |words| {
        words := words[boundIdx := nextId];
      }
    }

    method EmitExtension(name: seq<byte>)
      modifies this
      ensures Current() == Apply(old(Current()), Plain(10, EncodeString(name)))
      ensures var text := EncodeString(name);
        words == old(words) + [(1 + |text|) % 0x1_0000 * 0x1_0000 + 10] + text
    {
      var data := AppendString([], name);
      EmitInst(10, data);
    }

    method EmitExtInstImport(name: seq<byte>) returns (r: u32)
      requires nextId < ID_LIMIT
      modifies this
      ensures r == old(nextId) && Current() == Apply(old(Current()), ResultFirst(11, EncodeString(name)))
      ensures var text := EncodeString(name);
        words == old(words) + [(2 + |text|) % 0x1_0000 * 0x1_0000 + 11, r] + text
    {
      r := AllocId();
      var data := AppendString([r], name);
      EmitInst(11, data);
    }

    method EmitEntryPoint(model: u32, func: u32, name: seq<byte>, interfaces: seq<u32>)
      modifies this
      ensures Current() == Apply(old(Current()), Plain(15, [model, func] + EncodeString(name) + interfaces))
      ensures var text := EncodeString(name);
        words == old(words) + [(3 + |text| + |interfaces|) % 0x1_0000 * 0x1_0000 + 15, model, func] + text + interfaces
    {
      var data := AppendString([model, func], name);
      data := data + interfaces;
      EmitInst(15, data);
    }

    method EmitTypeVoid() returns (r: u32)
      requires nextId < ID_LIMIT
      modifies this
      ensures r == old(nextId) && Current() == Apply(old(Current()), ResultFirst(19, []))
      ensures words == old(words) + [0x2_0013, r]
    {
      r := AllocId();
      EmitInst(19, [r]);
      assert [r] == [r] + [];
    }

    method EmitTypeBool() returns (r: u32)
      requires nextId < ID_LIMIT
      modifies this
      ensures r == old(nextId) && Current() == Apply(old(Current()), ResultFirst(20, []))
      ensures words == old(words) + [0x2_0014, r]
    {
      r := AllocId();
      EmitInst(20, [r]);
      assert [r] == [r] + [];
    }

    method EmitTypeInt(width: u32, sign: u32) returns (r: u32)
      requires width in {8, 16, 32, 64} && sign <= 1
      requires nextId < ID_LIMIT
      modifies this
      ensures r == old(nextId) && Current() == Apply(old(Current()), ResultFirst(21, [width, sign]))
      ensures words == old(words) + [0x4_0015, r, width, sign]
    {
      r := AllocId();
      EmitInst(21, [r, width, sign]);
      assert [r, width, sign] == [r] + [width, sign];
    }

    method EmitTypeFloat(width: u32) returns (r: u32)
      requires width in {16, 32, 64}
      requires nextId < ID_LIMIT
      modifies this
      ensures r == old(nextId) && Current() == Apply(old(Current()), ResultFirst(22, [width]))
      ensures words == old(words) + [0x3_0016, r, width]
    {
      r := AllocId();
      EmitInst(22, [r, width]);
      assert [r, width] == [r] + [width];
    }

    method EmitTypeVector(component: u32, count: u32) returns (r: u32)
      requires 2 <= count <= 16
      requires nextId < ID_LIMIT
      modifies this
      ensures r == old(nextId) && Current() == Apply(old(Current()), ResultFirst(23, [component, count]))
      ensures words == old(words) + [0x4_0017, r, component, count]
    {
      r := AllocId();
      EmitInst(23, [r, component, count]);
      assert [r, component, count] == [r] + [component, count];
    }

    method EmitTypePointer(storageClass: u32, pointee: u32) returns (r: u32)
      requires nextId < ID_LIMIT
      modifies this
      ensures r == old(nextId) && Current() == Apply(old(Current()), ResultFirst(32, [storageClass, pointee]))
      ensures words == old(words) + [0x4_0020, r, storageClass, pointee]
    {
      r := AllocId();
      EmitInst(32, [r, storageClass, pointee]);
      assert [r, storageClass, pointee] == [r] + [storageClass, pointee];
    }

    method EmitConstantTyped(ty: u32, value: Literal) returns (r: u32)
      requires nextId < ID_LIMIT
      modifies this
      ensures r == old(nextId) && Current() == Apply(old(Current()), Typed(43, ty, ToWords(value)))
      ensures words == old(words) + [(3 + |ToWords(value)|) * 0x1_0000 + 43, ty, r] + ToWords(value)
    {
      r := AllocId();
      var data := [ty, r];
      data := data + ToWords(value);
      EmitInst(43, data);
    }

    method EmitVariable(ty: u32, storageClass: u32) returns (r: u32)
      requires nextId < ID_LIMIT
      modifies this
      ensures r == old(nextId) && Current() == Apply(old(Current()), Typed(59, ty, [storageClass]))
      ensures words == old(words) + [0x4_003B, ty, r, storageClass]
    {
      r := AllocId();
      EmitInst(59, [ty, r, storageClass]);
      assert [ty, r, storageClass] == [ty, r] + [storageClass];
    }

    method EmitLoad(ty: u32, pointer: u32) returns (r: u32)
      requires nextId < ID_LIMIT
      modifies this
      ensures r == old(nextId) && Current() == Apply(old(Current()), Typed(61, ty, [pointer]))
      ensures words == old(words) + [0x4_003D, ty, r, pointer]
    {
      r := AllocId();
      EmitInst(61, [ty, r, pointer]);
      assert [ty, r, pointer] == [ty, r] + [pointer];
    }

    method EmitStore(pointer: u32, value: u32)
      modifies this
      ensures Current() == Apply(old(Current()), Plain(62, [pointer, value]))
      ensures words == old(words) + [0x3_003E, pointer, value]
    {
      EmitInst(62, [pointer, value]);
    }

    method EmitIAdd(ty: u32, a: u32, b: u32) returns (r: u32)
      requires nextId < ID_LIMIT
      modifies this
      ensures r == old(nextId) && Current() == Apply(old(Current()), Typed(128, ty, [a, b]))
      ensures words == old(words) + [0x5_0080, ty, r, a, b]
    {
      r := TypedBin(128, ty, a, b);
    }

    method EmitNop()
      modifies this
      ensures Current() == Apply(old(Current()), Plain(0, []))
      ensures words == old(words) + [0x1_0000]
    {
      EmitInst(0, []);
    }

    method EmitKill()
      modifies this
      ensures Current() == Apply(old(Current()), Plain(252, []))
      ensures words == old(words) + [0x1_00FC]
    {
      EmitInst(252, []);
    }

    /** Structural validation. It accepts exactly the well-formed modules, reports exactly the first
        fault, and its final trailing-data error never fires. */
    method Validate() returns (r: Result<(), ValidationError>)
      ensures r.Ok? <==> WellFormed(words)
      ensures r == Err(TooShort) <==> |words| < 5
      ensures r == Err(BadMagic) <==> |words| >= 5 && words[0] != 0x0723_0203
      ensures forall e :: e != TooShort && e != BadMagic ==> (r == Err(e) <==> FirstFault(words, e))
      ensures r != Err(TrailingData)
    {
      if |words| < 5 {
        return Err(TooShort);
      }
      if words[0] != 0x07230203 {
        return Err(BadMagic);
      }
      ghost var prefix: seq<Inst> := [];
      var pos := 5;
      assert Encode(prefix) == words[HEADER_LENGTH..pos];
      while pos < |words|
        invariant WalkedTo(words, prefix, pos)
        decreases |words| - pos
      {
        var header := words[pos];
        var wc := Shr(header, 16);
        var opcode := And(header, 0xFFFF);
        HeaderFields(header);
        HeadAt(words, prefix, pos);
        if wc == 0 {
          FaultReported(words, prefix, ZeroWordCount);
          return Err(ZeroWordCount);
        }
        if pos + wc > |words| {
          FaultReported(words, prefix, Overrun);
          return Err(Overrun);
        }
        if opcode == 0 && wc != 1 {
          FaultReported(words, prefix, LongNop);
          return Err(LongNop);
        }
        prefix := ExtendPrefix(words, prefix, pos);
        pos := pos + wc;
      }
      NoFaultReported(words, prefix);
      if pos != |words| {
        return Err(TrailingData);
      }
      return Ok(());
    }

    /** The module as bytes, each word little-endian. */
    method ToBytes() returns (out: seq<byte>)
      ensures out == BytesOf(words)
    {
      out := [];
      for i := 0 to |words|
        invariant out + BytesOf(words[i..]) == BytesOf(words)
      {
        out := out + LittleEndianBytes(words[i], 4);
        assert words[i..][1..] == words[i + 1..];
      }
    }
  }

  lemma HeaderFields(header: u32)
    ensures Shr(header, 16) == header / 0x1_0000 && And(header, 0xFFFF) == header % 0x1_0000
  {
    Pow2Values();
    AndMask(header, 16);
    ShrIsDivision(header, 16);
  }

  /** The first fault of a module whose header is right. */
  ghost predicate FirstFault(words: seq<u32>, e: ValidationError) {
    HasHeader(words) && exists prefix :: FaultAfter(words[HEADER_LENGTH..], prefix, e)
  }

  /** The walk stands at `pos`, having accepted `prefix`. */
  ghost predicate WalkedTo(words: seq<u32>, prefix: seq<Inst>, pos: nat) {
    && HEADER_LENGTH <= pos <= |words|
    && AllAcceptable(prefix) && Encode(prefix) == words[HEADER_LENGTH..pos]
  }

  /** Any fault of the instruction at `pos` is the fault of the module after `prefix`. */
  lemma HeadAt(words: seq<u32>, prefix: seq<Inst>, pos: nat)
    requires WalkedTo(words, prefix, pos) && pos < |words|
    ensures forall e :: FaultOfHead(words[pos..]) == Some(e) ==> FaultAfter(words[HEADER_LENGTH..], prefix, e)
  {
    assert words[HEADER_LENGTH..][|Encode(prefix)|..] == words[pos..];
  }

  /** The walk accepts the instruction at `pos` too. */
  lemma ExtendPrefix(words: seq<u32>, prefix: seq<Inst>, pos: nat) returns (r: seq<Inst>)
    requires WalkedTo(words, prefix, pos) && pos < |words|
    requires FaultOfHead(words[pos..]) == None
    ensures WalkedTo(words, r, pos + words[pos] / 0x1_0000)
  {
    var wc := words[pos] / 0x1_0000;
    var i := Inst(words[pos] % 0x1_0000, words[pos + 1..pos + wc]);
    EncodeSnoc(prefix, i);
    InstAt(words, pos);
    SliceJoin(words, HEADER_LENGTH, pos, pos + wc);
    r := prefix + [i];
  }

  lemma InstAt(words: seq<u32>, pos: nat)
    requires pos < |words| && FaultOfHead(words[pos..]) == None
    ensures var wc := words[pos] / 0x1_0000;
      && 0 < wc <= |words| - pos
      && EncodeInst(Inst(words[pos] % 0x1_0000, words[pos + 1..pos + wc])) == words[pos..pos + wc]
  {
  }

  lemma SliceJoin(words: seq<u32>, i: nat, j: nat, k: nat)
    requires i <= j <= k <= |words|
    ensures words[i..j] + words[j..k] == words[i..k]
  {
  }

  lemma FaultReported(words: seq<u32>, prefix: seq<Inst>, e: ValidationError)
    requires HasHeader(words) && FaultAfter(words[HEADER_LENGTH..], prefix, e)
    ensures !WellFormed(words) && FirstFault(words, e)
    ensures forall f :: FirstFault(words, f) ==> f == e
  {
    var ws := words[HEADER_LENGTH..];
    forall insts | AllAcceptable(insts) ensures Encode(insts) != ws {
      FaultExcludesEncoding(ws, prefix, e, insts);
    }
    forall f, p | FaultAfter(ws, p, f) ensures f == e {
      FaultUnique(ws, prefix, e, p, f);
    }
  }

  lemma NoFaultReported(words: seq<u32>, insts: seq<Inst>)
    requires HasHeader(words) && AllAcceptable(insts) && Encode(insts) == words[HEADER_LENGTH..]
    ensures WellFormed(words)
    ensures forall e :: !FirstFault(words, e)
  {
    forall e, p | FaultAfter(words[HEADER_LENGTH..], p, e) ensures false {
      FaultExcludesEncoding(words[HEADER_LENGTH..], p, e, insts);
    }
  }

  // -- Bytes and literals --------------------------------------------------------

  function BytesOf(words: seq<u32>): (bs: seq<byte>)
    ensures |bs| == 4 * |words|
  {
    if words == [] then [] else LittleEndianBytes(words[0], 4) + BytesOf(words[1..])
  }

  /** A reader of the file recovers the words. */
  function WordsOf(bytes: seq<byte>): seq<nat>
  {
    if |bytes| < 4 then [] else [LittleEndian(bytes[..4])] + WordsOf(bytes[4..])
  }

  lemma {:induction false} BytesRoundTrip(words: seq<u32>)
    ensures WordsOf(BytesOf(words)) == words
  {
    if words != [] {
      var bs := BytesOf(words);
      Pow2Values();
      LittleEndianInverse(words[0], 4);
      assert bs[..4] == LittleEndianBytes(words[0], 4) && bs[4..] == BytesOf(words[1..]);
      BytesRoundTrip(words[1..]);
    }
  }
}
