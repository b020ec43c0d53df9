/** The dispatch chain the generator writes: one opcode test per instruction, in order of name. */
module Dispatch {
  import opened Bits
  import opened Wrappers
  import opened Slices
  import opened StableSort
  import opened DecoderGenerator
  import opened Sass

  // -- Names in byte order -------------------------------------------------------------------

  predicate LexLe(a: string, b: string) {
    a == [] || (b != [] && (a[0] < b[0] || (a[0] == b[0] && LexLe(a[1..], b[1..]))))
  }

  /** The first is a prefix of the second, or has the smaller character where they first differ. */
  ghost predicate Before(a: string, b: string) { a <= b || exists k: nat :: DiffersAt(a, b, k) }

  ghost predicate DiffersAt(a: string, b: string, k: nat) {
    k < |a| && k < |b| && a[..k] == b[..k] && a[k] < b[k]
  }

  lemma {:induction false} LexLeIsBefore(a: string, b: string)
    ensures LexLe(a, b) <==> Before(a, b)
  {
    if a != [] && b != [] && a[0] == b[0] {
      LexLeIsBefore(a[1..], b[1..]);
      BeforeTails(a, b);
    } else if a != [] && b != [] && a[0] < b[0] {
      assert DiffersAt(a, b, 0);
    }
  }

  lemma BeforeTails(a: string, b: string)
    requires a != [] && b != [] && a[0] == b[0]
    ensures Before(a, b) <==> Before(a[1..], b[1..])
  {
    assert a == [a[0]] + a[1..] && b == [b[0]] + b[1..];
    if k: nat :| DiffersAt(a, b, k) {
      assert k > 0;
      DiffersInTail(a, b, k - 1);
    }
    if k: nat :| DiffersAt(a[1..], b[1..], k) {
      DiffersInTail(a, b, k);
    }
  }

  lemma DiffersInTail(a: string, b: string, k: nat)
    requires a != [] && b != [] && a[0] == b[0]
    ensures DiffersAt(a, b, k + 1) <==> DiffersAt(a[1..], b[1..], k)
  {
    if k + 1 < |a| && k + 1 < |b| {
      assert a[..k + 1] == [a[0]] + a[1..][..k] && b[..k + 1] == [b[0]] + b[1..][..k];
    }
  }

  lemma {:induction false} LexTotal(a: string, b: string)
    ensures LexLe(a, b) || LexLe(b, a)
  {
    if a != [] && b != [] {
      LexTotal(a[1..], b[1..]);
    }
  }

  lemma {:induction false} LexTransitive(a: string, b: string, c: string)
    requires LexLe(a, b) && LexLe(b, c)
    ensures LexLe(a, c)
  {
    if a != [] && a[0] == b[0] == c[0] {
      LexTransitive(a[1..], b[1..], c[1..]);
    }
  }

  // -- Instructions --------------------------------------------------------------------------

  datatype Instruction = Instruction(name: string, fixedFields: seq<Field>, fields: seq<Field>)

  predicate NameFirst(a: Instruction, b: Instruction) { LexLe(a.name, b.name) }

  lemma NameOrder()
    ensures Preorder(NameFirst)
  {
    forall x: Instruction, y: Instruction ensures NameFirst(x, y) || NameFirst(y, x) {
      LexTotal(x.name, y.name);
    }
    forall x: Instruction, y: Instruction, z: Instruction | NameFirst(x, y) && NameFirst(y, z) ensures NameFirst(x, z) {
      LexTransitive(x.name, y.name, z.name);
    }
  }

  /** A field of at most 128 bits whose slices, all below 64 bits, fill it. */
  ghost predicate Readable(f: Field) { Narrow(f.bits) && TotalWidth(f.bits) == f.totalBits <= 128 }

  /** The only fixed field is an opcode of two slices, or there is no opcode. */
  ghost predicate OpcodeOnly(i: Instruction) {
    if exists f :: f in i.fixedFields && f.name == "opcode"
    then
      && |i.fixedFields| == 1 && i.fixedFields[0].value.Some?
      && Readable(i.fixedFields[0]) && |i.fixedFields[0].bits| == 2
    else true
  }

  /** The word carries the instruction's opcode. */
  predicate Matches(i: Instruction, inst: nat) {
    exists f :: f in i.fixedFields && f.name == "opcode" && Some(Merged(inst, f.bits)) == f.value
  }

  // -- The chain -----------------------------------------------------------------------------

  datatype Branch = Branch(name: string, test: Test)

  /** The chain of `if`s: the first branch whose test holds calls its handler. */
  function Dispatch(chain: seq<Branch>, inst: nat): Option<string> {
    if chain == [] then None
    else if Holds(chain[0].test, inst) then Some(chain[0].name)
    else Dispatch(chain[1..], inst)
  }

  lemma {:induction false} DispatchSnoc(chain: seq<Branch>, b: Branch, inst: nat)
    ensures Dispatch(chain + [b], inst) ==
            if Dispatch(chain, inst).Some? then Dispatch(chain, inst)
            else if Holds(b.test, inst) then Some(b.name) else None
  {
    if chain != [] {
      DispatchSnoc(chain[1..], b, inst);
      assert (chain + [b])[1..] == chain[1..] + [b];
    } else {
      assert [b][1..] == [];
      assert [] + [b] == [b];
    }
  }

  ghost predicate FirstAt(list: seq<Instruction>, inst: nat, k: nat) {
    k < |list| && Matches(list[k], inst) && forall i :: 0 <= i < k ==> !Matches(list[i], inst)
  }

  /** `r` is the name of the first instruction of the list that the word matches. */
  ghost predicate FirstMatch(list: seq<Instruction>, inst: nat, r: Option<string>) {
    match r
    case None => forall i :: 0 <= i < |list| ==> !Matches(list[i], inst)
    case Some(name) => exists k: nat :: FirstAt(list, inst, k) && name == list[k].name
  }

  ghost predicate ChainOf(list: seq<Instruction>, chain: seq<Branch>) {
    forall inst: nat :: FirstMatch(list, inst, Dispatch(chain, inst))
  }

  /** `r` is the least name, in byte order, of the instructions that the word matches. */
  ghost predicate LeastMatch(list: seq<Instruction>, inst: nat, r: Option<string>) {
    match r
    case None => forall i :: i in list ==> !Matches(i, inst)
    case Some(name) =>
      && (exists i :: i in list && Matches(i, inst) && name == i.name)
      && (forall i :: i in list && Matches(i, inst) ==> Before(name, i.name))
  }

  lemma FirstIsLeast(list: seq<Instruction>, sorted: seq<Instruction>, inst: nat, r: Option<string>)
    requires multiset(sorted) == multiset(list) && Ordered(NameFirst, sorted) && FirstMatch(sorted, inst, r)
    ensures LeastMatch(list, inst, r)
  {
    forall i | i in list && Matches(i, inst) ensures r.Some? && Before(r.value, i.name) {
      assert i in multiset(sorted);
      var j :| 0 <= j < |sorted| && sorted[j] == i;
      assert Matches(sorted[j], inst);
      var k: nat :| FirstAt(sorted, inst, k) && r.value == sorted[k].name;
      if k < j {
        assert NameFirst(sorted[k], sorted[j]);
      } else {
        LexTotal(i.name, i.name);
      }
      LexLeIsBefore(r.value, i.name);
    }
    if r.Some? {
      var k: nat :| FirstAt(sorted, inst, k) && r.value == sorted[k].name;
      assert sorted[k] in multiset(list);
    }
  }

  // -- Writing the chain ---------------------------------------------------------------------

  /** An instruction without an opcode gets no branch, and no word matches it. */
  lemma ChainSkips(list: seq<Instruction>, chain: seq<Branch>, i: Instruction)
    requires ChainOf(list, chain) && forall f :: f in i.fixedFields ==> f.name != "opcode"
    ensures ChainOf(list + [i], chain)
  {
    forall inst: nat ensures FirstMatch(list + [i], inst, Dispatch(chain, inst)) {
      MatchGrows(list, inst, Dispatch(chain, inst), i);
    }
  }

  lemma ChainGrows(list: seq<Instruction>, chain: seq<Branch>, i: Instruction, b: Branch)
    requires ChainOf(list, chain) && b.name == i.name && forall inst: nat :: Holds(b.test, inst) <==> Matches(i, inst)
    ensures ChainOf(list + [i], chain + [b])
  {
    forall inst: nat ensures FirstMatch(list + [i], inst, Dispatch(chain + [b], inst)) {
      DispatchSnoc(chain, b, inst);
      MatchGrows(list, inst, Dispatch(chain, inst), i);
    }
  }

  lemma MatchGrows(list: seq<Instruction>, inst: nat, r: Option<string>, i: Instruction)
    requires FirstMatch(list, inst, r)
    ensures FirstMatch(list + [i], inst, if r.Some? then r else if Matches(i, inst) then Some(i.name) else None)
  {
    if r.Some? {
      var k: nat :| FirstAt(list, inst, k) && r.value == list[k].name;
      assert FirstAt(list + [i], inst, k);
    } else if Matches(i, inst) {
      assert FirstAt(list + [i], inst, |list|);
    }
  }

  /** The test of the only fixed field is the match of the opcode. */
  lemma OpcodeTest(i: Instruction, test: Test)
    requires |i.fixedFields| == 1 && i.fixedFields[0].name == "opcode" && i.fixedFields[0].value.Some?
    requires forall inst: nat ::
      Holds(test, inst) <==> Merged(inst, i.fixedFields[0].bits) == i.fixedFields[0].value.value
    ensures forall inst: nat :: Holds(test, inst) <==> Matches(i, inst)
  {
    assert i.fixedFields[0] in i.fixedFields;
  }

  method OpcodeBranch(i: Instruction) returns (b: Branch)
    requires OpcodeOnly(i) && exists f :: f in i.fixedFields && f.name == "opcode"
    ensures b.name == i.name && forall inst: nat :: Holds(b.test, inst) <==> Matches(i, inst)
  {
    var f := i.fixedFields[0];
    var test := GetMultiCmpStmt(f.totalBits, f.bits, f.value.value);
    b := Branch(i.name, test.value);
    forall inst: nat ensures Holds(b.test, inst) <==> Merged(inst, f.bits) == f.value.value {
      MergedFits(inst, f.bits);
    }
    OpcodeTest(i, b.test);
  }

  method AddBranch(ghost list: seq<Instruction>, chain: seq<Branch>, i: Instruction) returns (r: seq<Branch>)
    requires OpcodeOnly(i) && ChainOf(list, chain)
    ensures ChainOf(list + [i], r)
  {
    r := chain;
    if exists f :: f in i.fixedFields && f.name == "opcode" {
      var b := OpcodeBranch(i);
      ChainGrows(list, chain, i, b);
      r := r + [b];
    } else {
      ChainSkips(list, chain, i);
    }
  }

  /** The branches, in the order of the list. */
  method WriteBranches(list: seq<Instruction>) returns (chain: seq<Branch>)
    requires forall k :: 0 <= k < |list| ==> OpcodeOnly(list[k])
    ensures ChainOf(list, chain)
  {
    chain := [];
    for k := 0 to |list|
      invariant ChainOf(list[..k], chain)
    {
      assert list[..k + 1] == list[..k] + [list[k]];
      chain := AddBranch(list[..k], chain, list[k]);
    }
    assert list[..|list|] == list;
  }

  /** The whole chain. For every word it picks the least name among the instructions with the word's opcode, and
      nothing when there are none, in whatever order the instructions were described. */
  method WriteChain(list: seq<Instruction>) returns (chain: seq<Branch>)
    requires forall i :: i in list ==> OpcodeOnly(i)
    ensures forall inst: nat :: LeastMatch(list, inst, Dispatch(chain, inst))
  {
    var sorted := Sort(NameFirst, list);
    NameOrder();
    SortContents(NameFirst, list);
    SortOrdered(NameFirst, list);
    forall k | 0 <= k < |sorted| ensures OpcodeOnly(sorted[k]) {
      assert sorted[k] in multiset(sorted);
    }
    chain := WriteBranches(sorted);
    forall inst: nat ensures LeastMatch(list, inst, Dispatch(chain, inst)) {
      FirstIsLeast(list, sorted, inst, Dispatch(chain, inst));
    }
  }

  // -- The opcode of SM86 -----------------------------------------------------------------------

  /** Bit 91, then bits 11 to 0. */
  const OPCODE_SLICES: seq<Slice> := [Bounds(91, 91), Bounds(0, 11)]

  /** Tests on these slices compare the 13-bit opcode. */
  lemma OpcodeIsMerged(w: u128)
    ensures Merged(w, OPCODE_SLICES) == Opcode(w) && TotalWidth(OPCODE_SLICES) == 13
  {
    var high, low := Bounds(91, 91), Bounds(0, 11);
    assert OPCODE_SLICES == ([] + [high]) + [low];
    MergedSnoc(w, [], high);
    MergedSnoc(w, [] + [high], low);
    RaiseZero(1);
    Raise8(BitField(w, 91, 1));
    Raise4(256 * BitField(w, 91, 1));
    RaiseTwice(BitField(w, 91, 1), 8, 4);
  }

  /** The opcodes that a list of instructions gives a branch. */
  ghost function Opcodes(list: seq<Instruction>): set<nat> {
    set i, f | i in list && f in i.fixedFields && f.name == "opcode" && f.value.Some? :: f.value.value
  }

  lemma OpcodeMatches(list: seq<Instruction>, w: u128)
    requires forall i, f :: i in list && f in i.fixedFields && f.name == "opcode" ==> f.bits == OPCODE_SLICES
    ensures (exists i :: i in list && Matches(i, w)) <==> Opcode(w) in Opcodes(list)
  {
    OpcodeIsMerged(w);
    if i :| i in list && Matches(i, w) {
      var f :| f in i.fixedFields && f.name == "opcode" && Some(Merged(w, f.bits)) == f.value;
      assert f.value.value in Opcodes(list);
    }
    if Opcode(w) in Opcodes(list) {
      var i, f :| i in list && f in i.fixedFields && f.name == "opcode" && f.value == Some(Opcode(w));
      assert Matches(i, w);
    }
  }

  /** A word is passed over exactly when no instruction has its opcode. */
  lemma PassedOver(list: seq<Instruction>, w: u128, r: Option<string>)
    requires forall i, f :: i in list && f in i.fixedFields && f.name == "opcode" ==> f.bits == OPCODE_SLICES
    requires LeastMatch(list, w, r)
    ensures r.None? <==> Opcode(w) !in Opcodes(list)
  {
    OpcodeMatches(list, w);
  }
}
