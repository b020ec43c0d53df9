/** A whole translation: the prologue, one instruction word after the other, and the finished module. */
module Translation {
  import opened Bits
  import opened Wrappers
  import opened SpirvStream
  import opened SpirvEmitter
  import opened Sm86
  import opened Simulation
  import Sass

  lemma {:induction false} ResultTotalSnoc(ops: seq<Sass.Op>, op: Sass.Op)
    ensures ResultTotal(ops + [op]) == ResultTotal(ops) + ResultCount(op)
    ensures ResultTotal(ops) <= 3 * |ops|
  {
    if ops != [] {
      ResultTotalSnoc(ops[1..], op);
      assert (ops + [op])[1..] == ops[1..] + [op];
    }
  }

  lemma FirstRest(ops: seq<Sass.Op>, op: Sass.Op)
    requires Sass.AllValid(ops) && Sass.ValidOp(op)
    ensures Sass.AllValid(ops + [op])
    ensures ops != [] ==> Sass.ValidOp(ops[0]) && Sass.AllValid(ops[1..]) && (ops + [op])[1..] == ops[1..] + [op]
    ensures ops != [] ==> ResultTotal(ops) == ResultCount(ops[0]) + ResultTotal(ops[1..])
  {
  }

  lemma Concatenate(a: seq<Call>, b: seq<Call>, c: seq<Call>)
    ensures a + (b + c) == (a + b) + c
  {
  }

  lemma OneOp(l: Layout, op: Sass.Op, id: u32)
    requires ValidLayout(l) && Sass.AllValid([op]) && id + ResultTotal([op]) + 3 <= ID_LIMIT
    ensures ProgramCalls(l, [op], id) == OpCalls(l, op, id)
  {
    assert [op][1..] == [];
  }

  lemma FirstOfMore(l: Layout, ops: seq<Sass.Op>, op: Sass.Op, id: u32)
    requires ValidLayout(l) && ops != [] && Sass.AllValid(ops + [op]) && id + ResultTotal(ops + [op]) + 3 <= ID_LIMIT
    ensures Sass.ValidOp(ops[0]) && Sass.AllValid(ops[1..] + [op])
    ensures ResultTotal(ops + [op]) == ResultCount(ops[0]) + ResultTotal(ops[1..] + [op])
    ensures ProgramCalls(l, ops + [op], id) ==
            OpCalls(l, ops[0], id) + ProgramCalls(l, ops[1..] + [op], id + ResultCount(ops[0]))
  {
    assert (ops + [op])[0] == ops[0] && (ops + [op])[1..] == ops[1..] + [op];
    ProgramUnfold(l, ops + [op], id);
  }

  /** The step of the induction below. */
  lemma ProgramGrows(l: Layout, ops: seq<Sass.Op>, op: Sass.Op, id: u32, rest: seq<Call>, last: seq<Call>)
    requires ValidLayout(l) && ops != [] && Sass.AllValid(ops) && Sass.AllValid(ops + [op])
    requires id + ResultTotal(ops) + 3 <= ID_LIMIT && id + ResultTotal(ops + [op]) + 3 <= ID_LIMIT
    requires Sass.AllValid(ops[1..] + [op])
    requires id + ResultCount(ops[0]) + ResultTotal(ops[1..] + [op]) + 3 <= ID_LIMIT
    requires rest == ProgramCalls(l, ops[1..], id + ResultCount(ops[0]))
    requires ProgramCalls(l, ops[1..] + [op], id + ResultCount(ops[0])) == rest + last
    ensures ProgramCalls(l, ops + [op], id) == ProgramCalls(l, ops, id) + last
  {
    FirstOfMore(l, ops, op, id);
    ProgramUnfold(l, ops, id);
    Concatenate(OpCalls(l, ops[0], id), rest, last);
  }

  /** The code of a longer program is the code of the shorter one, then the code of the last instruction. */
  lemma {:induction false} ProgramSnoc(l: Layout, ops: seq<Sass.Op>, op: Sass.Op, id: u32)
    requires ValidLayout(l) && Sass.AllValid(ops) && Sass.ValidOp(op)
    requires id + ResultTotal(ops) + ResultCount(op) + 3 <= ID_LIMIT
    ensures Sass.AllValid(ops + [op]) && id + ResultTotal(ops + [op]) + 3 <= ID_LIMIT
    ensures ProgramCalls(l, ops + [op], id) == ProgramCalls(l, ops, id) + OpCalls(l, op, id + ResultTotal(ops))
    decreases |ops|
  {
    ResultTotalSnoc(ops, op);
    FirstRest(ops, op);
    if ops == [] {
      assert ops + [op] == [op];
      OneOp(l, op, id);
    } else {
      var next := id + ResultCount(ops[0]);
      ProgramSnoc(l, ops[1..], op, next);
      ProgramGrows(l, ops, op, id, ProgramCalls(l, ops[1..], next), OpCalls(l, op, id + ResultTotal(ops)));
    }
  }

  /** What the emitter holds after the prologue and the code of some instructions. */
  ghost predicate Holds(s: State, tables: seq<Table>, ops: seq<Sass.Op>) {
    && ValidTables(tables) && Sass.AllValid(ops) && 308 + ResultTotal(ops) <= ID_LIMIT
    && Room(1, ModuleCalls([], tables, ops)) && s == Run(STARTED, ModuleCalls([], tables, ops))
  }

  lemma PrologueDone(s: State, tables: seq<Table>)
    requires ValidTables(tables) && Room(1, InitCalls(1, tables)) && s == Run(STARTED, InitCalls(1, tables))
    ensures Holds(s, tables, [])
  {
    assert [] + (InitCalls(1, tables) + []) == InitCalls(1, tables);
    assert ModuleCalls([], tables, []) == InitCalls(1, tables);
  }

  lemma OneMore(s: State, t: State, tables: seq<Table>, ops: seq<Sass.Op>, op: Sass.Op)
    requires Holds(s, tables, ops) && Emitted(s, t, LayoutAt(1), op) && 308 + ResultTotal(ops) + 3 <= ID_LIMIT
    ensures Holds(t, tables, ops + [op])
  {
    ModuleCallsSnoc(tables, ops, op);
    ModuleRoom([], tables, ops + [op]);
    RunMore(s, t, tables, ops, op);
  }

  lemma RunMore(s: State, t: State, tables: seq<Table>, ops: seq<Sass.Op>, op: Sass.Op)
    requires Holds(s, tables, ops) && Emitted(s, t, LayoutAt(1), op) && 308 + ResultTotal(ops) + 3 <= ID_LIMIT
    requires Sass.AllValid(ops + [op]) && 308 + ResultTotal(ops + [op]) <= ID_LIMIT
    requires ModuleCalls([], tables, ops + [op]) ==
             ModuleCalls([], tables, ops) + OpCalls(LayoutAt(1), op, 305 + ResultTotal(ops))
    requires Room(1, ModuleCalls([], tables, ops + [op]))
    ensures t == Run(STARTED, ModuleCalls([], tables, ops + [op]))
  {
    ModuleCount(tables, ops);
    RunAppend(STARTED, ModuleCalls([], tables, ops), OpCalls(LayoutAt(1), op, s.nextId));
  }

  lemma ModuleCallsSnoc(tables: seq<Table>, ops: seq<Sass.Op>, op: Sass.Op)
    requires ValidTables(tables) && Sass.AllValid(ops) && Sass.ValidOp(op) && 308 + ResultTotal(ops) + 3 <= ID_LIMIT
    ensures Sass.AllValid(ops + [op]) && 308 + ResultTotal(ops + [op]) <= ID_LIMIT
    ensures ModuleCalls([], tables, ops + [op]) ==
            ModuleCalls([], tables, ops) + OpCalls(LayoutAt(1), op, 305 + ResultTotal(ops))
  {
    ResultTotalSnoc(ops, op);
    ProgramSnoc(LayoutAt(1), ops, op, 305);
    ModuleSnoc(InitCalls(1, tables), ProgramCalls(LayoutAt(1), ops, 305),
               OpCalls(LayoutAt(1), op, 305 + ResultTotal(ops)));
  }

  lemma ModuleSnoc(a: seq<Call>, b: seq<Call>, c: seq<Call>)
    ensures [] + (a + (b + c)) == ([] + (a + b)) + c
  {
    Concatenate(a, b, c);
  }

  /** The emitter's counter after some instructions. */
  lemma ModuleCount(tables: seq<Table>, ops: seq<Sass.Op>)
    requires ValidTables(tables) && Sass.AllValid(ops) && 308 + ResultTotal(ops) <= ID_LIMIT
    ensures CountResults(ModuleCalls([], tables, ops)) == 304 + ResultTotal(ops)
  {
    var prologue, code := InitCalls(1, tables), ProgramCalls(LayoutAt(1), ops, 305);
    InitRoom(1, tables);
    ProgramRoom(LayoutAt(1), ops, 305);
    CountAppend(prologue, code);
    assert ModuleCalls([], tables, ops) == prologue + code;
  }

  lemma HoldsRoom(s: State, tables: seq<Table>, ops: seq<Sass.Op>)
    requires Holds(s, tables, ops)
    ensures s.nextId == 305 + ResultTotal(ops) <= 305 + 3 * |ops|
  {
    ModuleCount(tables, ops);
    ResultTotalSnoc(ops, Sass.Nop);
  }

  /** One more word: its code if it decodes, nothing if it is passed over. */
  lemma HoldsMore(s: State, t: State, tables: seq<Table>, ops: seq<Sass.Op>, op: Option<Sass.Op>, next: seq<Sass.Op>)
    requires Holds(s, tables, ops) && 308 + 3 * |ops| + 3 <= ID_LIMIT
    requires op.Some? ==> next == ops + [op.value] && Emitted(s, t, LayoutAt(1), op.value)
    requires op.None? ==> next == ops && t == s
    ensures Holds(t, tables, next)
  {
    if op.Some? {
      ResultTotalSnoc(ops, op.value);
      OneMore(s, t, tables, ops, op.value);
    }
  }

  /** One word: nothing but a panic keeps the translation from going on. */
  method TranslateWord(decoder: Decoder, w: Sass.u128, ghost tables: seq<Table>, ghost seen: seq<Sass.u128>)
    returns (ok: bool)
    requires decoder.Valid() && decoder.LayoutNow() == LayoutAt(1)
    requires Holds(decoder.ir.Current(), tables, Sass.Program(seen)) && 308 + 3 * |seen| + 3 <= ID_LIMIT
    modifies decoder.ir
    ensures decoder.Valid() && decoder.LayoutNow() == LayoutAt(1)
    ensures ok <==> Sass.Passes(w, decoder.branches)
    ensures ok ==> Holds(decoder.ir.Current(), tables, Sass.Program(seen + [w]))
  {
    ghost var s, ops := decoder.ir.Current(), Sass.Program(seen);
    HoldsRoom(s, tables, ops);
    var o := decoder.Translate(w);
    ok := o != Panicked;
    if ok {
      Sass.ProgramSnoc(seen, w);
      HoldsMore(s, decoder.ir.Current(), tables, ops, Sass.Decode(w), Sass.Program(seen + [w]));
    }
  }

  /** One word after the other; the first that panics ends the translation. */
  method TranslateWords(decoder: Decoder, words: seq<Sass.u128>, ghost tables: seq<Table>) returns (ok: bool)
    requires 308 + 3 * |words| <= ID_LIMIT
    requires decoder.Valid() && decoder.LayoutNow() == LayoutAt(1) && Holds(decoder.ir.Current(), tables, [])
    modifies decoder.ir
    ensures ok <==> Sass.AllPass(words, decoder.branches)
    ensures ok ==> Holds(decoder.ir.Current(), tables, Sass.Program(words))
  {
    for i := 0 to |words|
      invariant decoder.Valid() && decoder.LayoutNow() == LayoutAt(1)
      invariant Sass.AllPass(words[..i], decoder.branches)
      invariant Holds(decoder.ir.Current(), tables, Sass.Program(words[..i]))
    {
      assert words[..i + 1] == words[..i] + [words[i]];
      var passed := TranslateWord(decoder, words[i], tables, words[..i]);
      if !passed {
        return false;
      }
    }
    assert words[..|words|] == words;
    ok := true;
  }

  /** The finished module is right for every initial register file. */
  ghost predicate Correct(words: seq<u32>, ops: seq<Sass.Op>)
    requires Sass.AllValid(ops)
  {
    WellFormed(words) && forall initial: u32 -> u32 ::
      Computes(words, LayoutAt(1), initial, Sass.RunOps(ops, InitialShader(LayoutAt(1), initial)))
  }

  lemma FinalizedCorrect(s: State, tables: seq<Table>, ops: seq<Sass.Op>)
    requires Holds(s, tables, ops)
    ensures Correct(Finalized(s).words, ops)
  {
    forall initial: u32 -> u32
      ensures WellFormed(Finalized(s).words)
      ensures Computes(Finalized(s).words, LayoutAt(1), initial, Sass.RunOps(ops, InitialShader(LayoutAt(1), initial)))
    {
      TranslationCorrect([], tables, ops, initial);
    }
    var zeros: u32 -> u32 := (x: u32) => 0;
    TranslationCorrect([], tables, ops, zeros);
  }

  /** Translating a program as a caller of the emitter and the decoder does. It gives a module just when no word
      panics. That module is well formed and computes what the words that decode compute, whatever the registers
      hold at the start; words without a branch in the chain leave no trace. */
  method TranslateProgram(words: seq<Sass.u128>, branches: Sass.Branches) returns (r: Option<seq<u32>>)
    requires 308 + 3 * |words| <= ID_LIMIT
    ensures r.Some? <==> Sass.AllPass(words, branches)
    ensures r.Some? ==> Correct(r.value, Sass.Program(words))
  {
    var ir := new Emitter();
    ir.EmitHeader();
    assert ir.Current() == STARTED;
    var decoder := new Decoder(ir, branches, 0);
    ghost var tables := decoder.Tables();
    decoder.Init();
    PrologueDone(ir.Current(), tables);
    var ok := TranslateWords(decoder, words, tables);
    if !ok {
      return None;
    }
    FinalizedCorrect(ir.Current(), tables, Sass.Program(words));
    ir.Finalize();
    r := Some(ir.words);
  }
}
