/** The instruction stream of a SPIR-V module (Khronos SPIR-V Specification, section 2.3):
    each instruction is a word holding its word count and opcode, followed by its operands. */
module SpirvStream {
  import opened Bits
  import opened Wrappers

  type u16 = n: nat | n < 0x1_0000

  const MAGIC: u32 := 0x07230203
  const HEADER_LENGTH := 5

  datatype Inst = Inst(opcode: u16, operands: seq<u32>)

  /** The first word of an instruction with `n` operands; the word count keeps only 16 bits. */
  function FirstWord(opcode: u16, n: nat): u32 {
    (1 + n) % 0x1_0000 * 0x1_0000 + opcode
  }

  function EncodeInst(i: Inst): (ws: seq<u32>)
    ensures |ws| == 1 + |i.operands|
  {
    [FirstWord(i.opcode, |i.operands|)] + i.operands
  }

  function Encode(insts: seq<Inst>): seq<u32>
  {
    if insts == [] then [] else EncodeInst(insts[0]) + Encode(insts[1..])
  }

  lemma {:induction false} EncodeAppend(a: seq<Inst>, b: seq<Inst>)
    ensures Encode(a + b) == Encode(a) + Encode(b)
  {
    if a == [] {
      assert a + b == b;
    } else {
      EncodeAppend(a[1..], b);
      assert (a + b)[0] == a[0] && (a + b)[1..] == a[1..] + b;
      AppendAssociates(EncodeInst(a[0]), Encode(a[1..]), Encode(b));
    }
  }

  lemma AppendAssociates(a: seq<u32>, b: seq<u32>, c: seq<u32>)
    ensures a + (b + c) == (a + b) + c
  {
  }

  lemma EncodeSnoc(a: seq<Inst>, i: Inst)
    ensures Encode(a + [i]) == Encode(a) + EncodeInst(i)
  {
    EncodeAppend(a, [i]);
    assert Encode([i]) == EncodeInst(i) + Encode([]);
  }

  /** The word count of the instruction fits in its field. */
  predicate Fits(i: Inst) { |i.operands| <= 65534 }

  ghost predicate AllFit(insts: seq<Inst>) { forall k :: 0 <= k < |insts| ==> Fits(insts[k]) }

  /** Splits a stream into instructions by following the word counts. */
  function Walk(ws: seq<u32>): Option<seq<Inst>>
    decreases |ws|
  {
    if ws == [] then Some([])
    else
      var wc := ws[0] / 0x1_0000;
      if wc == 0 || wc > |ws| then None
      else
        match Walk(ws[wc..])
        case None => None
        case Some(rest) => Some([Inst(ws[0] % 0x1_0000, ws[1..wc])] + rest)
  }

  lemma WalkHead(i: Inst, rest: seq<u32>)
    requires Fits(i)
    ensures var ws := EncodeInst(i) + rest;
      && ws[0] / 0x1_0000 == 1 + |i.operands| <= |ws| && ws[0] % 0x1_0000 == i.opcode
      && ws[1..1 + |i.operands|] == i.operands && ws[1 + |i.operands|..] == rest
  {
  }

  lemma {:induction false} WalkOfEncode(insts: seq<Inst>)
    requires AllFit(insts)
    ensures Walk(Encode(insts)) == Some(insts)
  {
    if insts != [] {
      WalkOfEncode(insts[1..]);
      assert Fits(insts[0]);
      WalkHead(insts[0], Encode(insts[1..]));
      assert insts == [insts[0]] + insts[1..];
    }
  }

  /** A stream that can be walked is the encoding of what the walk finds. */
  lemma {:induction false} EncodeOfWalk(ws: seq<u32>)
    requires Walk(ws).Some?
    ensures Encode(Walk(ws).value) == ws && AllFit(Walk(ws).value)
    decreases |ws|
  {
    if ws != [] {
      var wc := ws[0] / 0x1_0000;
      EncodeOfWalk(ws[wc..]);
      var i, rest := Inst(ws[0] % 0x1_0000, ws[1..wc]), Walk(ws[wc..]).value;
      assert Walk(ws).value == [i] + rest;
      assert Walk(ws).value[1..] == rest;
      FirstInst(ws, wc);
    }
  }

  /** The words of the first instruction. */
  lemma FirstInst(ws: seq<u32>, wc: nat)
    requires 1 <= wc <= |ws| && wc == ws[0] / 0x1_0000
    ensures ws == EncodeInst(Inst(ws[0] % 0x1_0000, ws[1..wc])) + ws[wc..] && |ws[1..wc]| == wc - 1
  {
    assert ws[..wc] == [ws[0]] + ws[1..wc];
    assert ws == ws[..wc] + ws[wc..];
  }

  /** Emission and walking are inverse exactly when every word count fits in 16 bits. */
  lemma WalkInvertsEncode(insts: seq<Inst>)
    ensures Walk(Encode(insts)) == Some(insts) <==> AllFit(insts)
  {
    if AllFit(insts) {
      WalkOfEncode(insts);
    }
    if Walk(Encode(insts)) == Some(insts) {
      EncodeOfWalk(Encode(insts));
    }
  }

  // -- Structural validity -------------------------------------------------------

  datatype ValidationError = TooShort | BadMagic | ZeroWordCount | Overrun | LongNop | TrailingData

  /** An instruction `validate` accepts. */
  predicate Acceptable(i: Inst) { Fits(i) && (i.opcode == 0 ==> i.operands == []) }

  ghost predicate AllAcceptable(insts: seq<Inst>) { forall k :: 0 <= k < |insts| ==> Acceptable(insts[k]) }

  predicate HasHeader(words: seq<u32>) { |words| >= HEADER_LENGTH && words[0] == MAGIC }

  /** The words after the header are the encoding of some list of acceptable instructions. */
  ghost predicate WellFormed(words: seq<u32>)
  {
    HasHeader(words) && exists insts :: AllAcceptable(insts) && Encode(insts) == words[HEADER_LENGTH..]
  }

  /** A module is well formed just when the magic comes first and, from word 5 on, following the word counts ends at the
      end of the words and meets no no-op with operands. */
  lemma WellFormedWalk(words: seq<u32>)
    ensures WellFormed(words) <==>
            |words| >= 5 && words[0] == 0x0723_0203 && Walk(words[5..]).Some? && NopsAlone(Walk(words[5..]).value)
  {
    if WellFormed(words) {
      var insts :| AllAcceptable(insts) && Encode(insts) == words[5..];
      AcceptableFits(insts);
      WalkOfEncode(insts);
    }
    if |words| >= 5 && Walk(words[5..]).Some? && NopsAlone(Walk(words[5..]).value) {
      EncodeOfWalk(words[5..]);
      AcceptableFits(Walk(words[5..]).value);
    }
  }

  ghost predicate NopsAlone(insts: seq<Inst>) {
    forall k :: 0 <= k < |insts| && insts[k].opcode == 0 ==> insts[k].operands == []
  }

  lemma AcceptableFits(insts: seq<Inst>)
    ensures AllAcceptable(insts) <==> AllFit(insts) && NopsAlone(insts)
  {
    if AllAcceptable(insts) {
      forall k | 0 <= k < |insts| ensures Fits(insts[k]) && (insts[k].opcode == 0 ==> insts[k].operands == []) {
        assert Acceptable(insts[k]);
      }
    }
  }

  /** What is wrong with the instruction that starts the words `ws`, if anything. */
  function FaultOfHead(ws: seq<u32>): Option<ValidationError>
    requires ws != []
  {
    if ws[0] / 0x1_0000 == 0 then Some(ZeroWordCount)
    else if ws[0] / 0x1_0000 > |ws| then Some(Overrun)
    else if ws[0] % 0x1_0000 == 0 && ws[0] / 0x1_0000 != 1 then Some(LongNop)
    else None
  }

  /** The faults, by the upper and the lower half of the first word. */
  lemma Faults(ws: seq<u32>)
    requires ws != []
    ensures FaultOfHead(ws) == Some(ZeroWordCount) <==> ws[0] < 0x1_0000
    ensures FaultOfHead(ws) == Some(Overrun) <==> ws[0] / 0x1_0000 > |ws|
    ensures FaultOfHead(ws) == Some(LongNop) <==> 1 < ws[0] / 0x1_0000 <= |ws| && ws[0] % 0x1_0000 == 0
    ensures FaultOfHead(ws).Some? ==> FaultOfHead(ws).value in {ZeroWordCount, Overrun, LongNop}
  {
  }

  /** After a well-formed prefix of instructions comes one with fault `e`. */
  ghost predicate FaultAfter(ws: seq<u32>, prefix: seq<Inst>, e: ValidationError)
  {
    && AllAcceptable(prefix)
    && Encode(prefix) <= ws
    && |Encode(prefix)| < |ws|
    && FaultOfHead(ws[|Encode(prefix)|..]) == Some(e)
  }

  /** An encoded instruction list has no fault, wherever it is cut. */
  lemma {:induction false} FaultExcludesEncoding(ws: seq<u32>, prefix: seq<Inst>, e: ValidationError, insts: seq<Inst>)
    requires FaultAfter(ws, prefix, e) && AllAcceptable(insts)
    ensures Encode(insts) != ws
    decreases |prefix|
  {
    if Encode(insts) == ws {
      assert insts != [];
      assert Acceptable(insts[0]);
      WalkHead(insts[0], Encode(insts[1..]));
      if prefix != [] {
        assert Acceptable(prefix[0]);
        var n := |EncodeInst(prefix[0])|;
        var tail := ws[n..];
        SplitPrefix(ws, prefix);
        FaultExcludesEncoding(tail, prefix[1..], e, insts[1..]);
      }
    }
  }

  /** The first instruction of an encoded prefix is read off the front of the stream. */
  lemma SplitPrefix(ws: seq<u32>, prefix: seq<Inst>)
    requires prefix != [] && Fits(prefix[0]) && Encode(prefix) <= ws
    ensures var n := 1 + |prefix[0].operands|;
      && n <= |ws| && ws[0] / 0x1_0000 == n && ws[0] % 0x1_0000 == prefix[0].opcode
      && ws[1..n] == prefix[0].operands
      && Encode(prefix[1..]) <= ws[n..] && |Encode(prefix)| == n + |Encode(prefix[1..])|
      && ws[n..][|Encode(prefix[1..])|..] == ws[|Encode(prefix)|..]
  {
    var n := 1 + |prefix[0].operands|;
    var rest := ws[|Encode(prefix)|..];
    assert ws == Encode(prefix) + rest;
    assert ws == EncodeInst(prefix[0]) + (Encode(prefix[1..]) + rest);
    WalkHead(prefix[0], Encode(prefix[1..]) + rest);
  }

  /** A fault behind a non-empty prefix is a fault behind the rest of it, in the words after its head. */
  lemma FaultStep(ws: seq<u32>, p: seq<Inst>, e: ValidationError)
    requires FaultAfter(ws, p, e) && p != []
    ensures var n := ws[0] / 0x1_0000;
      && 0 < n <= |ws| && FaultOfHead(ws) == None
      && p[0] == Inst(ws[0] % 0x1_0000, ws[1..n]) && FaultAfter(ws[n..], p[1..], e)
  {
    assert Acceptable(p[0]);
    SplitPrefix(ws, p);
  }

  /** The position and the kind of the first fault are determined by the words. */
  lemma {:induction false} FaultUnique(ws: seq<u32>, p: seq<Inst>, e: ValidationError, q: seq<Inst>, f: ValidationError)
    requires FaultAfter(ws, p, e) && FaultAfter(ws, q, f)
    ensures p == q && e == f
    decreases |p|
  {
    if p != [] {
      FaultStep(ws, p, e);
    }
    if q != [] {
      FaultStep(ws, q, f);
    }
    if p == [] || q == [] {
      assert ws[0..] == ws;
    } else {
      FaultUnique(ws[ws[0] / 0x1_0000..], p[1..], e, q[1..], f);
      assert p == [p[0]] + p[1..] && q == [q[0]] + q[1..];
    }
  }
}
