/** Loading code into the shared memory: whole words, then the last bytes by read-modify-write. */
module CodeLoader {
  import opened Bits
  import opened Bytes

  /** The emulator's word accesses. One that is not wholly inside the memory does nothing, and reads as 0. */
  function WriteU32(memory: seq<byte>, at: nat, word: u32): (r: seq<byte>)
    ensures |r| == |memory|
  {
    if at + 4 <= |memory| then Splice(memory, at, LittleEndianBytes(word, 4)) else memory
  }

  function ReadU32(memory: seq<byte>, at: nat): u32 {
    if at + 4 <= |memory| then WordBound(memory[at..at + 4]); LittleEndian(memory[at..at + 4]) else 0
  }

  lemma WordBound(s: seq<byte>)
    requires |s| == 4
    ensures LittleEndian(s) < 0x1_0000_0000
  {
    LittleEndianBound(s);
    Pow2Values();
  }

  /** How many of the first bytes of the code reach a memory of `size` bytes: a word that does not fit
      is lost whole, a trailing byte is lost only when it lies outside itself. */
  function Landed(vaddr: nat, len: nat, size: nat): (n: nat)
    ensures n <= len && (n == 0 || vaddr + n <= size)
    ensures n == len <==> len == 0 || vaddr + len <= size
  {
    if len == 0 || vaddr + len <= size then len
    else if vaddr >= size then 0
    else if vaddr + len / 4 * 4 <= size then size - vaddr
    else (size - vaddr) / 4 * 4
  }

  /** The memory after loading: a byte copy of what lands. */
  function Loaded(memory: seq<byte>, vaddr: nat, code: seq<byte>): (r: seq<byte>)
    ensures |r| == |memory|
  {
    var n := Landed(vaddr, |code|, |memory|);
    if n == 0 then memory else Splice(memory, vaddr, code[..n])
  }

  /** Code that fits is copied byte for byte, and nothing else changes: for every base address of any
      alignment and every length, and only then. */
  lemma LoadedIsCopy(memory: seq<byte>, vaddr: nat, code: seq<byte>)
    ensures vaddr + |code| <= |memory| ==> Loaded(memory, vaddr, code) == Splice(memory, vaddr, code)
    ensures Landed(vaddr, |code|, |memory|) == |code| <==> |code| == 0 || vaddr + |code| <= |memory|
  {
    if vaddr + |code| <= |memory| {
      assert code[..|code|] == code;
      if |code| == 0 {
        assert Splice(memory, vaddr, code) == memory;
      }
    }
  }

  /** The bytes of the code from `vaddr` on, and all others as they were. */
  ghost predicate Copied(before: seq<byte>, after: seq<byte>, vaddr: nat, code: seq<byte>) {
    && |after| == |before|
    && forall k :: 0 <= k < |after| ==>
      after[k] == if vaddr <= k < vaddr + |code| then code[k - vaddr] else before[k]
  }

  lemma CopiedIfFits(memory: seq<byte>, vaddr: nat, code: seq<byte>)
    ensures vaddr + |code| <= |memory| ==> Copied(memory, Loaded(memory, vaddr, code), vaddr, code)
  {
    if vaddr + |code| <= |memory| {
      LoadedIsCopy(memory, vaddr, code);
      forall k | 0 <= k < |memory|
        ensures Loaded(memory, vaddr, code)[k] == if vaddr <= k < vaddr + |code| then code[k - vaddr] else memory[k]
      {
        SpliceAt(memory, vaddr, code, k);
      }
    }
  }

  // -- One more word, one more byte -------------------------------------------------------

  lemma LandedWord(vaddr: nat, k: nat, size: nat)
    requires k % 4 == 0 && vaddr + k + 4 > size
    ensures Landed(vaddr, k + 4, size) == Landed(vaddr, k, size)
  {
  }

  lemma LandedByte(vaddr: nat, k: nat, size: nat)
    requires k % 4 < 3 && vaddr + k + 1 > size && size % 4 == 0
    ensures Landed(vaddr, k + 1, size) == Landed(vaddr, k, size)
  {
  }

  lemma WordWritten(memory: seq<byte>, at: nat, s: seq<byte>)
    requires |s| == 4
    ensures LittleEndian(s) < 0x1_0000_0000
    ensures WriteU32(memory, at, LittleEndian(s)) == if at + 4 <= |memory| then Splice(memory, at, s) else memory
  {
    WordBound(s);
    LittleEndianRoundTrip(s);
  }

  lemma LoadWord(memory: seq<byte>, vaddr: nat, code: seq<byte>, k: nat)
    requires k % 4 == 0 && k + 4 <= |code|
    ensures LittleEndian(code[k..k + 4]) < 0x1_0000_0000
    ensures WriteU32(Loaded(memory, vaddr, code[..k]), vaddr + k, LittleEndian(code[k..k + 4]))
         == Loaded(memory, vaddr, code[..k + 4])
  {
    WordWritten(Loaded(memory, vaddr, code[..k]), vaddr + k, code[k..k + 4]);
    if vaddr + k + 4 <= |memory| {
      SpliceMore(memory, vaddr, code, k, k + 4);
    } else {
      LandedWord(vaddr, k, |memory|);
      SameLanding(vaddr, code, k, k + 4, |memory|);
    }
  }

  lemma SameLanding(vaddr: nat, code: seq<byte>, k: nat, l: nat, size: nat)
    requires k <= l <= |code| && Landed(vaddr, l, size) == Landed(vaddr, k, size)
    ensures var n := Landed(vaddr, k, size); code[..k][..n] == code[..l][..n]
  {
  }

  /** Writing on behind what has been written. */
  lemma SpliceMore(memory: seq<byte>, at: nat, code: seq<byte>, k: nat, l: nat)
    requires k <= l <= |code| && at + l <= |memory|
    ensures Splice(Loaded(memory, at, code[..k]), at + k, code[k..l]) == Loaded(memory, at, code[..l])
  {
    LoadedIsCopy(memory, at, code[..k]);
    LoadedIsCopy(memory, at, code[..l]);
    assert code[..l] == code[..k] + code[k..l];
    SpliceTwice(memory, at, code[..k], code[k..l]);
  }

  lemma SpliceTwice(memory: seq<byte>, at: nat, a: seq<byte>, b: seq<byte>)
    requires at + |a| + |b| <= |memory|
    ensures Splice(Splice(memory, at, a), at + |a|, b) == Splice(memory, at, a + b)
  {
    var r := Splice(memory, at, a);
    var next := at + |a|;
    assert r[..next] == memory[..at] + a;
    assert r[next + |b|..] == memory[next + |b|..];
  }

  /** Clearing byte `j` of a word and putting `b` there. */
  function ReplaceByte(word: u32, j: nat, b: byte): nat
    requires j < 4
  {
    Or(And(word, Not32(Shl32(0xFF, 8 * j))), Shl32(b, 8 * j))
  }

  /** The four bytes of a shifted byte. */
  function Lane(j: nat, b: byte): (s: seq<byte>)
    requires j < 4
    ensures |s| == 4 && forall i :: 0 <= i < 4 ==> s[i] == if i == j then b else 0
  {
    seq(4, i => if i == j then b else 0)
  }

  lemma LaneValue(j: nat, b: byte)
    requires j < 4
    ensures Shl32(b, 8 * j) == LittleEndian(Lane(j, b))
  {
    var below, above := seq(j, _ => 0), seq(3 - j, _ => 0);
    assert Lane(j, b) == (below + [b]) + above;
    ZerosVanish(j);
    ZerosVanish(3 - j);
    LittleEndianSnoc(below, b);
    LittleEndianAppend(below + [b], above);
    RaiseZero(8 * |below + [b]|);
    WordBound(Lane(j, b));
    Pow2Values();
    LowExact(Raise(b, 8 * j), 32);
  }

  lemma {:induction false} ZerosVanish(n: nat)
    ensures LittleEndian(seq(n, _ => 0)) == 0
  {
    if n > 0 {
      ZerosVanish(n - 1);
      assert seq(n, _ => 0)[1..] == seq(n - 1, _ => 0);
    }
  }

  /** All ones but byte `j`. */
  function Hole(j: nat): (s: seq<byte>)
    requires j < 4
    ensures |s| == 4 && forall i :: 0 <= i < 4 ==> s[i] == if i == j then 0 else 255
  {
    seq(4, i => if i == j then 0 else 255)
  }

  function Word(a: nat, b: nat, c: nat, d: nat): nat { a + 256 * b + 0x1_0000 * c + 0x100_0000 * d }

  lemma WordOfBytes(s: seq<byte>)
    requires |s| == 4
    ensures LittleEndian(s) == Word(s[0], s[1], s[2], s[3])
  {
    assert s[1..][1..] == s[2..] && s[2..][1..] == s[3..] && s[3..][1..] == [];
    assert LittleEndian(s[3..]) == s[3];
    assert LittleEndian(s[2..]) == Word(s[2], s[3], 0, 0);
  }

  lemma HoleValue(j: nat)
    requires j < 4
    ensures Not32(Shl32(0xFF, 8 * j)) == LittleEndian(Hole(j))
  {
    LaneValue(j, 0xFF);
    WordOfBytes(Lane(j, 0xFF));
    WordOfBytes(Hole(j));
  }

  /** The read-modify-write changes exactly one byte of the word. */
  lemma ReplaceByteBytes(s: seq<byte>, j: nat, b: byte)
    requires |s| == 4 && j < 4
    ensures LittleEndian(s) < 0x1_0000_0000
    ensures ReplaceByte(LittleEndian(s), j, b) == LittleEndian(s[j := b]) < 0x1_0000_0000
  {
    WordBound(s);
    WordBound(s[j := b]);
    HoleValue(j);
    LaneValue(j, b);
    var cleared := s[j := 0];
    forall i | 0 <= i < 4
      ensures cleared[i] == CombineByte(AndGate, s[i], Hole(j)[i])
      ensures s[j := b][i] == CombineByte(OrGate, cleared[i], Lane(j, b)[i])
    {
      ByteGates(s[i]);
      ByteGates(b);
    }
    LittleEndianCombine(AndGate, s, Hole(j), cleared);
    LittleEndianCombine(OrGate, cleared, Lane(j, b), s[j := b]);
  }

  /** Clear byte `j` of a word and put `b` there: the other three bytes stay. */
  method WithByte(word: u32, j: nat, b: byte) returns (r: u32)
    requires j < 4
    ensures LittleEndianBytes(r, 4) == LittleEndianBytes(word, 4)[j := b]
  {
    ghost var s := LittleEndianBytes(word, 4);
    Pow2Values();
    LittleEndianInverse(word, 4);
    ReplaceByteBytes(s, j, b);
    LittleEndianRoundTrip(s[j := b]);
    var shift := 8 * j;
    var cleared := And(word, Not32(Shl32(0xFF, shift)));
    r := Or(cleared, Shl32(b, shift));
  }

  lemma Pow2Of62()
    ensures Pow2(62) == 0x4000_0000_0000_0000
  {
    Pow2Values();
    RaiseTwice(1, 32, 16);
    Raise16(Pow2(32));
    RaiseTwice(1, 48, 12);
    Raise8(Pow2(48));
    Raise4(256 * Pow2(48));
    RaiseTwice(Pow2(48), 8, 4);
    assert Raise(Pow2(60), 2) == 4 * Pow2(60);
    RaiseTwice(1, 60, 2);
  }

  /** Rounding an address down to its word, and its place in the word. */
  lemma Align(offset: u64)
    ensures And(offset, 0xFFFF_FFFF_FFFF_FFFC) == offset - offset % 4 && And(offset, 3) == offset % 4
  {
    Pow2Of62();
    AlignBelow(offset / 4, offset % 4, 62);
  }

  lemma AlignBelow(q: nat, r: nat, j: nat)
    requires q < Pow2(j) && r < 4
    ensures And(4 * q + r, 4 * Pow2(j) - 4) == 4 * q && And(4 * q + r, 3) == r
  {
    QuadIsRaise(q);
    QuadIsRaise(Pow2(j) - 1);
    AndHighMask(q, r, j, 2);
    AndMask(4 * q + r, 2);
    ShrLowUnique(q, r, 2);
  }

  lemma QuadIsRaise(q: nat)
    ensures Raise(q, 2) == 4 * q && Pow2(2) == 4
  {
    assert Raise(q, 1) == 2 * q;
    Pow2Values();
  }

  lemma AlignedFits(at: nat, size: nat)
    requires size % 4 == 0
    ensures at < size <==> at - at % 4 + 4 <= size
  {
  }

  lemma SpliceByte(memory: seq<byte>, aligned: nat, j: nat, b: byte)
    requires j < 4 && aligned + 4 <= |memory|
    ensures Splice(memory, aligned, memory[aligned..aligned + 4][j := b]) == memory[aligned + j := b]
  {
  }

  lemma SpliceOne(memory: seq<byte>, at: nat, code: seq<byte>, k: nat)
    requires at < |memory| && k < |code|
    ensures Splice(memory, at, code[k..k + 1]) == memory[at := code[k]]
  {
    assert code[k..k + 1] == [code[k]];
  }

  lemma LoadByteInside(memory: seq<byte>, vaddr: nat, code: seq<byte>, k: nat)
    requires k < |code| && vaddr + k < |memory|
    ensures Loaded(memory, vaddr, code[..k])[vaddr + k := code[k]] == Loaded(memory, vaddr, code[..k + 1])
  {
    SpliceMore(memory, vaddr, code, k, k + 1);
    SpliceOne(Loaded(memory, vaddr, code[..k]), vaddr + k, code, k);
  }

  /** A trailing byte that lies outside the memory. */
  lemma LoadByteOutside(memory: seq<byte>, vaddr: nat, code: seq<byte>, k: nat)
    requires k % 4 < 3 && k < |code| && vaddr + k >= |memory| && |memory| % 4 == 0
    ensures Loaded(memory, vaddr, code[..k]) == Loaded(memory, vaddr, code[..k + 1])
  {
    LandedByte(vaddr, k, |memory|);
    SameLanding(vaddr, code, k, k + 1, |memory|);
  }

  /** The memory after writing one byte, which is lost when it lies outside. */
  function ByteWritten(memory: seq<byte>, at: nat, b: byte): seq<byte> {
    if at < |memory| then memory[at := b] else memory
  }

  lemma LoadByte(memory: seq<byte>, vaddr: nat, code: seq<byte>, k: nat)
    requires k % 4 < 3 && k < |code| && |memory| % 4 == 0
    ensures ByteWritten(Loaded(memory, vaddr, code[..k]), vaddr + k, code[k]) == Loaded(memory, vaddr, code[..k + 1])
  {
    if vaddr + k < |memory| {
      LoadByteInside(memory, vaddr, code, k);
    } else {
      LoadByteOutside(memory, vaddr, code, k);
    }
  }

  /** Writing an aligned word with one byte changed writes just that byte. */
  lemma ByteByWord(memory: seq<byte>, aligned: nat, j: nat, b: byte, word: u32)
    requires |memory| % 4 == 0 && aligned % 4 == 0 && j < 4
    requires LittleEndianBytes(word, 4) == LittleEndianBytes(ReadU32(memory, aligned), 4)[j := b]
    ensures WriteU32(memory, aligned, word) == ByteWritten(memory, aligned + j, b)
  {
    AlignedFits(aligned + j, |memory|);
    if aligned + 4 <= |memory| {
      LittleEndianRoundTrip(memory[aligned..aligned + 4]);
      SpliceByte(memory, aligned, j, b);
    }
  }
}
