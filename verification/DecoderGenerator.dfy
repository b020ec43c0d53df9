/** The generator of the instruction decoder: parsing of bit ranges, the expressions it emits for split
    fields, and the clean-up of the field lists. */
module DecoderGenerator {
  import opened Bits
  import opened Wrappers
  import opened Numerals
  import opened Slices
  import opened StableSort

  // -- Numbers -----------------------------------------------------------------------------

  function ParseUsize(s: string): Option<u64> { ParseUnsigned(s, 10, 0x1_0000_0000_0000_0000) }

  // -- Bit ranges --------------------------------------------------------------------------

  /** The tokens of a BITS segment as numbers, where they are numbers. */
  function Numbers(tokens: seq<string>): (r: seq<Option<u64>>)
    ensures |r| == |tokens| && forall i :: 0 <= i < |r| ==> r[i] == ParseUsize(tokens[i])
  {
    seq(|tokens|, i requires 0 <= i < |tokens| => ParseUsize(tokens[i]))
  }

  /** The `i`-th pair is the end and the start of the slice. */
  predicate PairAt(numbers: seq<Option<u64>>, i: nat, s: Slice) {
    2 * i + 2 < |numbers| && numbers[2 * i + 1] == Some(s.end) && numbers[2 * i + 2] == Some(s.start)
  }

  ghost predicate Pairs(numbers: seq<Option<u64>>, bits: seq<Slice>) {
    forall i :: 0 <= i < |bits| ==> PairAt(numbers, i, bits[i])
  }

  /** The numbers describe a field of `totalBits` bits that the slices fill exactly. */
  ghost predicate Describes(numbers: seq<Option<u64>>, totalBits: nat, bits: seq<Slice>) {
    && 2 * |bits| < |numbers| && Pairs(numbers, bits)
    && numbers[0] == Some(totalBits) && TotalWidth(bits) == totalBits
  }

  /** The token is a decimal numeral of the number, with any number of leading zeros. */
  ghost predicate Decimal(token: string, n: nat) {
    && n < 0x1_0000_0000_0000_0000
    && exists ds :: ds != [] && AreDigits(ds, 10) && token == Text(ds) && n == Number(ds, 10)
  }

  lemma DecimalParsed(token: string, n: nat)
    requires Decimal(token, n)
    ensures ParseUsize(token) == Some(n)
  {
    var ds :| ds != [] && AreDigits(ds, 10) && token == Text(ds) && n == Number(ds, 10);
    TextParsed(ds, 10, 0x1_0000_0000_0000_0000);
  }

  /** A segment as it is written: in decimal, first the width of the field, then for each slice its last bit and its
      first bit. */
  ghost predicate Written(tokens: seq<string>, totalBits: nat, bits: seq<Slice>) {
    && |tokens| > 2 * |bits| && Decimal(tokens[0], totalBits)
    && forall i :: 0 <= i < |bits| ==>
         Decimal(tokens[2 * i + 1], bits[i].end) && Decimal(tokens[2 * i + 2], bits[i].start)
  }

  /** A field written in decimal, with slices that fill it, is described by its text. */
  lemma WrittenDescribes(tokens: seq<string>, totalBits: nat, bits: seq<Slice>)
    requires Written(tokens, totalBits, bits) && TotalWidth(bits) == totalBits
    ensures Describes(Numbers(tokens), totalBits, bits)
  {
    DecimalParsed(tokens[0], totalBits);
    forall i | 0 <= i < |bits| ensures PairAt(Numbers(tokens), i, bits[i]) {
      DecimalParsed(tokens[2 * i + 1], bits[i].end);
      DecimalParsed(tokens[2 * i + 2], bits[i].start);
    }
  }

  lemma {:induction false} TotalWidthPrefix(bits: seq<Slice>, k: nat)
    requires k <= |bits|
    ensures TotalWidth(bits) >= TotalWidth(bits[..k]) + (|bits| - k)
  {
    if k < |bits| {
      var init := bits[..|bits| - 1];
      TotalWidthPrefix(init, k);
      assert init[..k] == bits[..k];
    } else {
      assert bits[..k] == bits;
    }
  }

  /** Pairs read only one way. */
  lemma SamePairs(numbers: seq<Option<u64>>, bits: seq<Slice>, other: seq<Slice>, k: nat)
    requires Pairs(numbers, bits) && Pairs(numbers, other) && k <= |bits| && k <= |other|
    ensures bits[..k] == other[..k]
  {
    forall i | 0 <= i < k ensures bits[i] == other[i] {
      assert PairAt(numbers, i, bits[i]) && PairAt(numbers, i, other[i]);
    }
  }

  lemma PrefixWidth(bits: seq<Slice>, other: seq<Slice>)
    requires |other| <= |bits| && bits[..|other|] == other[..|other|]
    ensures TotalWidth(other) <= TotalWidth(bits)
  {
    assert other[..|other|] == other;
    TotalWidthPrefix(bits, |other|);
  }

  lemma NextWidth(bits: seq<Slice>, other: seq<Slice>)
    requires |bits| < |other| && other[..|bits|] == bits
    ensures TotalWidth(bits) + Width(other[|bits|]) <= TotalWidth(other)
  {
    var k := |bits|;
    MergedSnoc(0, bits, other[k]);
    assert other[..k + 1] == bits + [other[k]];
    TotalWidthPrefix(other, k + 1);
  }

  /** A description goes on where slices that do not fill the field yet stop. */
  lemma Continues(numbers: seq<Option<u64>>, bits: seq<Slice>, totalBits: nat, other: seq<Slice>)
    requires Pairs(numbers, bits) && Describes(numbers, totalBits, other) && TotalWidth(bits) < totalBits
    ensures |bits| < |other| && other[..|bits|] == bits
    ensures TotalWidth(bits) + Width(other[|bits|]) <= totalBits
  {
    if |other| <= |bits| {
      SamePairs(numbers, bits, other, |other|);
      PrefixWidth(bits, other);
    } else {
      SamePairs(numbers, bits, other, |bits|);
      assert bits[..|bits|] == bits;
      NextWidth(bits, other);
    }
  }

  /** A segment describes one field at most. */
  lemma DescribesOne(numbers: seq<Option<u64>>, a: seq<Slice>, b: seq<Slice>, totalBits: nat, other: nat)
    requires Describes(numbers, totalBits, a) && Describes(numbers, other, b)
    ensures totalBits == other && a == b
  {
    if |a| <= |b| {
      SamePairs(numbers, a, b, |a|);
      TotalWidthPrefix(b, |a|);
      assert a[..|a|] == a;
    } else {
      assert b[..|b|] == b;
      TotalWidthPrefix(a, |b|);
      SamePairs(numbers, a, b, |b|);
    }
  }

  /** Nothing but the slice the next pair names can come next. */
  lemma NextPair(numbers: seq<Option<u64>>, bits: seq<Slice>, totalBits: nat)
    requires Pairs(numbers, bits) && TotalWidth(bits) < totalBits
    requires forall s: Slice :: PairAt(numbers, |bits|, s) ==> TotalWidth(bits) + Width(s) > totalBits
    ensures forall other :: !Describes(numbers, totalBits, other)
  {
    forall other ensures !Describes(numbers, totalBits, other) {
      if Describes(numbers, totalBits, other) {
        Continues(numbers, bits, totalBits, other);
      }
    }
  }

  ghost predicate Malformed(numbers: seq<Option<u64>>) {
    forall totalBits, bits :: !Describes(numbers, totalBits, bits)
  }

  /** One more slice, if the tokens name one and it fits; otherwise the segment describes no field. */
  method NextFitting(tokens: seq<string>, bits: seq<Slice>, rem: nat, ghost totalBits: nat)
    returns (r: Option<seq<Slice>>, left: nat)
    requires 2 * |bits| < |tokens| && rem > 0 && Pairs(Numbers(tokens), bits)
    requires TotalWidth(bits) + rem == totalBits && ParseUsize(tokens[0]) == Some(totalBits)
    ensures r.Some? ==> 2 * |r.value| < |tokens| && Pairs(Numbers(tokens), r.value)
    ensures r.Some? ==> TotalWidth(r.value) + left == totalBits && left < rem
    ensures r.None? ==> Malformed(Numbers(tokens))
  {
    var s := NextSlice(tokens, |bits|);
    if s.None? || rem < Width(s.value) {
      NextPair(Numbers(tokens), bits, totalBits);
      return None, rem;
    }
    MergedSnoc(0, bits, s.value);
    r, left := Some(bits + [s.value]), rem - Width(s.value);
  }

  /** The loop over a BITS segment: it succeeds exactly on segments that describe a field, and otherwise
      stops with a panic: at a missing token, a malformed number, or an underflow. */
  method ParseSlices(tokens: seq<string>) returns (r: Option<(nat, seq<Slice>, seq<string>)>)
    ensures r.Some? ==> Describes(Numbers(tokens), r.value.0, r.value.1) && r.value.2 == tokens[2 * |r.value.1| + 1..]
    ensures r.None? ==> Malformed(Numbers(tokens))
  {
    if tokens == [] {
      return None;
    }
    var total := ParseUsize(tokens[0]);
    if total.None? {
      return None;
    }
    var bits: seq<Slice> := [];
    var rem: nat := total.value;
    while rem > 0
      invariant 2 * |bits| < |tokens| && Pairs(Numbers(tokens), bits) && TotalWidth(bits) + rem == total.value
    {
      var more, left := NextFitting(tokens, bits, rem, total.value);
      if more.None? {
        return None;
      }
      bits, rem := more.value, left;
    }
    r := Some((total.value, bits, tokens[2 * |bits| + 1..]));
  }

  method NextSlice(tokens: seq<string>, i: nat) returns (r: Option<Slice>)
    requires 2 * i < |tokens|
    ensures r.Some? ==> PairAt(Numbers(tokens), i, r.value)
    ensures r.None? ==> forall s: Slice :: !PairAt(Numbers(tokens), i, s)
  {
    if |tokens| <= 2 * i + 2 {
      return None;
    }
    var end, start := ParseUsize(tokens[2 * i + 1]), ParseUsize(tokens[2 * i + 2]);
    if end.None? || start.None? || end.value < start.value {
      return None;
    }
    r := Some(Bounds(start.value, end.value));
  }

  // -- Emitted expressions -----------------------------------------------------------------

  /** The expressions of the generated code over the 128-bit instruction word. */
  datatype Expr =
    | Inst
    | Shifted(e: Expr, amount: nat)
    | Masked(e: Expr, mask: nat)
    | Raised(e: Expr, amount: nat)
    | Either(left: Expr, right: Expr)

  function Eval(e: Expr, inst: nat): nat {
    match e
    case Inst => inst
    case Shifted(a, amount) => Shr(Eval(a, inst), amount)
    case Masked(a, mask) => And(Eval(a, inst), mask)
    case Raised(a, amount) => Shl(128, Eval(a, inst), amount)
    case Either(a, b) => Or(Eval(a, inst), Eval(b, inst))
  }

  /** All ones, as wide as the slice: a 64-bit number, so at most 63 ones. */
  function Mask(s: Slice): nat
    requires Width(s) < 64
  {
    Pow2(Width(s)) - 1
  }

  function StmtMask(s: Slice): Expr
    requires Width(s) < 64
  {
    if s.start > 0 then Masked(Shifted(Inst, s.start), Mask(s)) else Masked(Inst, Mask(s))
  }

  lemma StmtMaskExtracts(s: Slice, inst: nat)
    requires Width(s) < 64
    ensures Eval(StmtMask(s), inst) == Extract(inst, s)
  {
    assert Shr(inst, 0) == inst;
    assert Eval(Shifted(Inst, s.start), inst) == Shr(inst, s.start);
    AndMask(Shr(inst, s.start), Width(s));
  }

  /** What the generated code computes; an empty field emits no expression. */
  function Value(e: Option<Expr>, inst: nat): nat { if e.None? then 0 else Eval(e.value, inst) }

  ghost predicate Narrow(bits: seq<Slice>) { forall i :: 0 <= i < |bits| ==> Width(bits[i]) < 64 }

  /** The expression reads the slices as one number, most significant first, moved up by `rem` bits in a word of 128. */
  ghost predicate Reads(stmt: Option<Expr>, bits: seq<Slice>, rem: nat) {
    (stmt.None? <==> bits == []) && forall inst: nat :: Value(stmt, inst) == Shl(128, Merged(inst, bits), rem)
  }

  /** Cutting numbers off commutes with combining them. */
  lemma LowOr(a: nat, b: nat, k: nat)
    ensures Low(Or(a, b), k) == Or(Low(a, k), Low(b, k))
  {
    ShrLow(a, k);
    ShrLow(b, k);
    CombineSplit(OrGate, Shr(a, k), Low(a, k), Shr(b, k), Low(b, k), k);
    CombineBound(OrGate, Low(a, k), Low(b, k), k);
    ShrLowUnique(Or(Shr(a, k), Shr(b, k)), Or(Low(a, k), Low(b, k)), k);
  }

  /** A number `m` above `w + rem` bits, and `f` of `w` bits above `rem`. */
  lemma OrTerm(m: nat, f: nat, w: nat, rem: nat)
    requires f < Pow2(w)
    ensures Or(Raise(m, w + rem), Raise(f, rem)) == Raise(Raise(m, w) + f, rem)
  {
    RaiseBelow(f, w, rem);
    OrDisjoint(m, Raise(f, rem), w + rem);
    RaiseTwice(m, w, rem);
    RaiseAdd(Raise(m, w), f, rem);
  }

  lemma RaiseBelow(f: nat, w: nat, rem: nat)
    requires f < Pow2(w)
    ensures Raise(f, rem) < Pow2(w + rem)
  {
    RaiseTwice(1, w, rem);
    Pow2Positive(rem);
    RaiseBound(f, Pow2(w), 0, rem);
  }

  lemma Pow2Positive(k: nat)
    ensures 0 < Pow2(k)
  {
  }

  function Join(stmt: Option<Expr>, term: Expr): Expr { if stmt.None? then term else Either(stmt.value, term) }

  lemma ReadsMore(stmt: Option<Expr>, bits: seq<Slice>, s: Slice, rem: nat)
    requires Width(s) < 64 && Reads(stmt, bits, Width(s) + rem)
    ensures Reads(Some(Join(stmt, Raised(StmtMask(s), rem))), bits + [s], rem)
  {
    var term := Raised(StmtMask(s), rem);
    forall inst: nat ensures Value(Some(Join(stmt, term)), inst) == Shl(128, Merged(inst, bits + [s]), rem) {
      var m, f := Merged(inst, bits), Extract(inst, s);
      StmtMaskExtracts(s, inst);
      assert Eval(term, inst) == Shl(128, f, rem);
      OrTerm(m, f, Width(s), rem);
      LowOr(Raise(m, Width(s) + rem), Raise(f, rem), 128);
      MergedSnoc(inst, bits, s);
      if stmt.None? {
        RaiseZero(Width(s));
      } else {
        assert Value(stmt, inst) == Shl(128, m, Width(s) + rem);
      }
    }
  }

  /** One more slice, if it is narrow enough and there is room for it. */
  method AddTerm(stmt: Option<Expr>, rem: nat, s: Slice, ghost seen: seq<Slice>)
    returns (r: Option<(Option<Expr>, nat)>)
    requires Reads(stmt, seen, rem)
    ensures r.Some? <==> Width(s) <= rem && Width(s) < 64
    ensures r.Some? ==> r.value.1 == rem - Width(s) && Reads(r.value.0, seen + [s], r.value.1)
  {
    if rem < Width(s) || Width(s) >= 64 {
      return None;
    }
    var left: nat := rem - Width(s);
    ReadsMore(stmt, seen, s, left);
    r := Some((Some(Join(stmt, Raised(StmtMask(s), left))), left));
  }

  /** The statement that reads a split field. It panics exactly when a slice is 64 bits wide or wider, or
      the slices are wider than the field. */
  method GetMultiMergeStmt(totalBits: nat, bits: seq<Slice>) returns (r: Option<Option<Expr>>)
    ensures r.Some? <==> Narrow(bits) && TotalWidth(bits) <= totalBits
    ensures r.Some? ==> Reads(r.value, bits, totalBits - TotalWidth(bits))
  {
    var stmt: Option<Expr> := None;
    var rem: nat := totalBits;
    RaiseZero(rem);
    LowExact(0, 128);
    ghost var seen: seq<Slice> := [];
    for i := 0 to |bits|
      invariant seen == bits[..i] && rem + TotalWidth(seen) == totalBits && Narrow(seen)
      invariant Reads(stmt, seen, rem)
    {
      MergedSnoc(0, seen, bits[i]);
      assert bits[..i + 1] == seen + [bits[i]];
      TotalWidthPrefix(bits, i + 1);
      var more := AddTerm(stmt, rem, bits[i], seen);
      if more.None? {
        return None;
      }
      stmt, rem := more.value.0, more.value.1;
      seen := seen + [bits[i]];
    }
    assert seen == bits;
    r := Some(stmt);
  }

  /** The whole field, as it is in a word of 128 bits. */
  lemma ReadsWhole(stmt: Option<Expr>, bits: seq<Slice>, inst: nat)
    requires Reads(stmt, bits, 0)
    ensures Value(stmt, inst) == Low(Merged(inst, bits), 128)
  {
    assert Raise(Merged(inst, bits), 0) == Merged(inst, bits);
  }

  /** A field of at most 128 bits loses none of them. */
  lemma MergedFits(inst: nat, bits: seq<Slice>)
    requires TotalWidth(bits) <= 128
    ensures Shl(128, Merged(inst, bits), 0) == Merged(inst, bits)
  {
    MergedBound(inst, bits);
    Pow2Monotone(TotalWidth(bits), 128);
    LowExact(Merged(inst, bits), 128);
  }

  lemma LowBelow(a: nat, k: nat)
    ensures Low(a, k) <= a
  {
    ShrLow(a, k);
  }

  /** What the generated statement of a field with disjoint slices is worth: it is a number of the field's width, and it
      returns any value deposited in the slices, up to the width of the word. */
  lemma SplitFieldCorrect(stmt: Option<Expr>, bits: seq<Slice>, inst: nat, v: nat)
    requires Reads(stmt, bits, 0) && Disjoint(bits) && v < Pow2(TotalWidth(bits))
    ensures Value(stmt, inst) < Pow2(TotalWidth(bits))
    ensures Value(stmt, Deposit(inst, bits, v)) == Low(v, 128)
    ensures Value(stmt, Deposit(inst, bits, v)) == v <==> v < Pow2(128)
  {
    MergedBound(inst, bits);
    LowBelow(Merged(inst, bits), 128);
    MergedDeposit(inst, bits, v);
    ReadsWhole(stmt, bits, inst);
    ReadsWhole(stmt, bits, Deposit(inst, bits, v));
    LowIsWhole(v, 128);
  }

  /** It does not depend on any other bits. */
  lemma SplitFieldIgnores(stmt: Option<Expr>, bits: seq<Slice>, inst: nat, t: Slice, f: nat)
    requires Reads(stmt, bits, 0) && forall i :: 0 <= i < |bits| ==> Apart(t, bits[i])
    ensures Value(stmt, Put(inst, t, f)) == Value(stmt, inst)
  {
    MergedIgnores(inst, bits, t, f);
    ReadsWhole(stmt, bits, inst);
    ReadsWhole(stmt, bits, Put(inst, t, f));
  }

  lemma LowIsWhole(v: nat, k: nat)
    ensures Low(v, k) == v <==> v < Pow2(k)
  {
    ShrLow(v, k);
    if v < Pow2(k) {
      LowExact(v, k);
    }
  }

  /** From the description of a field to the statement that reads it: a statement is emitted exactly when the field
      parses and its slices are below 64 bits, and then nothing is left over. */
  method FieldStatement(tokens: seq<string>) returns (r: Option<Option<Expr>>)
    ensures r.Some? ==> exists totalBits, bits :: Describes(Numbers(tokens), totalBits, bits)
    ensures forall totalBits, bits :: Describes(Numbers(tokens), totalBits, bits) ==>
      (r.Some? <==> Narrow(bits)) && (r.Some? ==> Reads(r.value, bits, 0))
  {
    var parsed := ParseSlices(tokens);
    forall totalBits, bits | parsed.Some? && Describes(Numbers(tokens), totalBits, bits)
      ensures totalBits == parsed.value.0 && bits == parsed.value.1
    {
      DescribesOne(Numbers(tokens), parsed.value.1, bits, parsed.value.0, totalBits);
    }
    if parsed.None? {
      return None;
    }
    r := GetMultiMergeStmt(parsed.value.0, parsed.value.1);
  }

  // -- Comparisons -------------------------------------------------------------------------

  datatype Test = Test(left: Expr, value: nat)

  predicate Holds(t: Test, inst: nat) { Eval(t.left, inst) == t.value }

  /** The test that a split field has a value: as for reading it, and a field without slices gives none. */
  method GetMultiCmpStmt(totalBits: nat, bits: seq<Slice>, value: nat) returns (r: Option<Test>)
    ensures r.Some? <==> Narrow(bits) && TotalWidth(bits) <= totalBits && bits != []
    ensures r.Some? ==> forall inst: nat ::
      Holds(r.value, inst) <==> Shl(128, Merged(inst, bits), totalBits - TotalWidth(bits)) == value
  {
    var stmt := GetMultiMergeStmt(totalBits, bits);
    if stmt.None? || stmt.value.None? {
      return None;
    }
    r := Some(Test(stmt.value.value, value));
    assert forall inst: nat :: Eval(r.value.left, inst) == Value(stmt.value, inst);
  }

  // -- Fields ------------------------------------------------------------------------------

  datatype Field = Field(name: string, totalBits: nat, bits: seq<Slice>, value: Option<nat>)

  type Sliced = f: Field | f.bits != [] witness Field("", 1, [Bounds(0, 0)], None)

  function SwapRemove<T>(s: seq<T>, i: nat): seq<T>
    requires i < |s|
  {
    s[i := s[|s| - 1]][..|s| - 1]
  }

  lemma SwapRemoveContents<T>(s: seq<T>, i: nat)
    requires i < |s|
    ensures multiset(SwapRemove(s, i)) == multiset(s) - multiset{s[i]}
  {
    var last := s[|s| - 1];
    var t := s[i := last];
    assert t == SwapRemove(s, i) + [last];
    assert multiset(t) == multiset(s) - multiset{s[i]} + multiset{last};
    assert multiset(t) == multiset(SwapRemove(s, i)) + multiset{last};
    forall x ensures multiset(SwapRemove(s, i))[x] == (multiset(s) - multiset{s[i]})[x] {
      assert multiset(t)[x] == (multiset(s) - multiset{s[i]})[x] + multiset{last}[x];
    }
  }

  /** Removal of the fields without slices, in place: the rest stay, each as often as it was there. */
  method RemoveEmpty(list: seq<Field>) returns (fields: seq<Field>)
    ensures forall f :: multiset(fields)[f] == if f.bits == [] then 0 else multiset(list)[f]
  {
    fields := list;
    var i := 0;
    while i < |fields|
      invariant i <= |fields|
      invariant forall f: Field :: f.bits != [] ==> multiset(fields)[f] == multiset(list)[f]
      invariant forall k :: 0 <= k < i ==> fields[k].bits != []
      decreases |fields| - i
    {
      if fields[i].bits == [] {
        SwapRemoveContents(fields, i);
        fields := SwapRemove(fields, i);
      } else {
        i := i + 1;
      }
    }
    forall f: Field | f.bits == [] ensures multiset(fields)[f] == 0 {
      assert f !in fields;
    }
  }

  function StartsFirst(a: Sliced, b: Sliced): bool { a.bits[0].start <= b.bits[0].start }

  /** The field list of an instruction as it is emitted. The sort looks at the first slice of every field, so it is
      only defined on fields that have one; the clean-up has left no others. */
  method CleanFields(list: seq<Field>) returns (fields: seq<Sliced>)
    ensures forall f: Sliced :: multiset(fields)[f] == multiset(list)[f]
    ensures Ordered(StartsFirst, fields)
    ensures forall i, j :: 0 <= i < j < |fields| ==> fields[i].bits[0].start <= fields[j].bits[0].start
  {
    var kept := RemoveEmpty(list);
    forall k | 0 <= k < |kept| ensures kept[k].bits != [] {
      assert kept[k] in multiset(kept);
    }
    var sliced: seq<Sliced> := kept;
    fields := Sort(StartsFirst, sliced);
    SortContents(StartsFirst, sliced);
    SortOrdered(StartsFirst, sliced);
  }
}
