/** AES-XTS decryption of the NCA header (IEEE Std 1619-2007, sections 5.2 and 5.4). The block cipher
    is an arbitrary pair of functions; AES itself is not part of this model. */
module Xts {
  import opened Bits
  import opened GaloisField

  type Block = s: seq<byte> | |s| == 16 witness seq(16, _ => 0)
  type Key = Block
  type Cipher = (Key, Block) -> Block

  const SECTOR_SIZE := 0x200
  const SECTORS := 6

  /** `dec` undoes `enc` under every key. */
  ghost predicate Inverse(enc: Cipher, dec: Cipher) { forall k, b {:trigger enc(k, b)} :: dec(k, enc(k, b)) == b }

  function XorByte(a: byte, b: byte): byte { CombineByte(XorGate, a, b) }

  function XorBlocks(a: Block, b: Block): (r: Block)
    ensures forall i :: 0 <= i < 16 ==> r[i] == Xor(a[i], b[i])
  {
    seq(16, i requires 0 <= i < 16 => XorByte(a[i], b[i]))
  }

  lemma XorBlocksCancel(a: Block, b: Block)
    ensures XorBlocks(XorBlocks(a, b), b) == a
  {
    forall i | 0 <= i < 16 ensures XorBlocks(XorBlocks(a, b), b)[i] == a[i] {
      XorCancel(a[i], b[i]);
    }
  }

  /** A block as a field element, and back. */
  function Value(b: Block): nat { LittleEndian(b) }

  function BlockOf(v: nat): Block { LittleEndianBytes(v, 16) }

  // -- Multiplication by alpha on bytes -----------------------------------------------------

  /** Every byte shifted left by one, taking in the top bit of the byte below. */
  function ShiftUp(t: seq<byte>, carry: nat): (r: seq<byte>)
    requires carry < 2
    ensures |r| == |t|
  {
    if t == [] then [] else [2 * t[0] % 256 + carry] + ShiftUp(t[1..], t[0] / 128)
  }

  function TopBit(t: seq<byte>, carry: nat): nat { if t == [] then carry else t[|t| - 1] / 128 }

  lemma DoubledByte(x: byte)
    ensures 2 * x == 2 * x % 256 + 256 * (x / 128)
  {
  }

  lemma {:induction false} ShiftUpDoubles(t: seq<byte>, carry: nat)
    requires carry < 2
    ensures LittleEndian(ShiftUp(t, carry)) + Raise(TopBit(t, carry), 8 * |t|) == 2 * LittleEndian(t) + carry
  {
    if t != [] {
      ShiftUpDoubles(t[1..], t[0] / 128);
      DoubledByte(t[0]);
      RaiseByte(TopBit(t, carry), |t| - 1);
      assert TopBit(t[1..], t[0] / 128) == TopBit(t, carry);
      assert ShiftUp(t, carry)[1..] == ShiftUp(t[1..], t[0] / 128);
    }
  }

  lemma {:induction false} ShiftUpAt(t: seq<byte>, carry: nat, i: nat)
    requires carry < 2 && i < |t|
    ensures ShiftUp(t, carry)[i] == 2 * t[i] % 256 + (if i == 0 then carry else t[i - 1] / 128)
  {
    if i > 0 {
      ShiftUpAt(t[1..], t[0] / 128, i - 1);
    }
  }

  lemma LowByte(a: nat)
    ensures Low(a, 8) == a % 256
  {
    Pow2Values();
    ShrIsDivision(a, 8);
  }

  lemma DoubledRemainder(x: nat)
    ensures 2 * x % 256 == 2 * (x % 128)
  {
  }

  lemma ShlByte(x: byte)
    ensures Shl(8, x, 1) == 2 * x % 256 == 2 * (x % 128)
  {
    assert Raise(x, 1) == 2 * x;
    LowByte(2 * x);
    DoubledRemainder(x);
  }

  lemma ShrByte(x: byte)
    ensures Shr(x, 7) == x / 128 < 2
  {
    Pow2Values();
    ShrIsDivision(x, 7);
  }

  /** The byte the loop computes for one position. */
  lemma ShiftedByte(x: byte, below: byte)
    ensures Or(Shl(8, x, 1), Shr(below, 7)) == 2 * x % 256 + below / 128
  {
    ShlByte(x);
    ShrByte(below);
    Pow2Values();
    OrDisjoint(x % 128, below / 128, 1);
  }

  /** Adding the low terms of the modulus to the first byte adds them to the whole number. */
  lemma XorFirstByte(s: seq<byte>, c: byte)
    requires s != []
    ensures LittleEndian(s[0 := XorByte(s[0], c)]) == Xor(LittleEndian(s), c)
  {
    CombineLowByte(XorGate, s[0], LittleEndian(s[1..]), c, 0);
    CombineZero(LittleEndian(s[1..]));
    assert s[0 := XorByte(s[0], c)][1..] == s[1..];
  }

  /** The field whose elements are `n`-byte numbers. */
  function ByteField(n: nat, low: byte): Field { Field(8 * n, low) }

  /** Shifting the bytes up and folding the carry into the first is multiplication by x. */
  lemma ShiftIsMulX(t: seq<byte>, low: byte)
    requires t != []
    ensures MulX(ByteField(|t|, low), LittleEndian(t))
         == LittleEndian(if TopBit(t, 0) == 0 then ShiftUp(t, 0)
                         else ShiftUp(t, 0)[0 := XorByte(ShiftUp(t, 0)[0], low)])
  {
    var n, r := 8 * |t|, LittleEndian(ShiftUp(t, 0));
    ShiftUpDoubles(t, 0);
    LittleEndianBound(ShiftUp(t, 0));
    RaiseZero(n);
    if TopBit(t, 0) == 1 {
      Pow2AtLeastByte(n);
      XorTopBit(r, low, n);
      XorTopBit(low, r, n);
      XorFirstByte(ShiftUp(t, 0), low);
      TopBitCancels(r, low, n);
    }
  }

  lemma Pow2AtLeastByte(n: nat)
    requires n >= 8
    ensures Pow2(n) >= 256
  {
    Pow2Values();
    Pow2Monotone(8, n);
  }

  lemma TopBitCancels(r: nat, low: nat, n: nat)
    requires r < Pow2(n) && low < Pow2(n)
    ensures Xor(Pow2(n) + r, Pow2(n) + low) == Xor(r, low)
  {
    XorTopBit(r, low, n);
  }

  /** Multiplication by alpha, on the bytes of a block. */
  function TimesAlpha(t: Block): Block { BlockOf(MulX(GF128, Value(t))) }

  /** A byte doubled, without its top bit. */
  function DoubleOf(x: nat): nat { 2 * x % 256 }

  function TopOf(x: nat): nat { x / 128 }

  /** Every byte doubled, taking in the top bit of the byte below; the top bit of the last comes back as 0x87. */
  ghost predicate Doubled(t: Block, r: Block) {
    && (forall i :: 1 <= i < 16 ==> r[i] == DoubleOf(t[i]) + TopOf(t[i - 1]))
    && r[0] == if TopOf(t[15]) == 0 then DoubleOf(t[0]) else Xor(DoubleOf(t[0]), 0x87)
  }

  function Carried(t: Block): (r: Block) {
    if TopBit(t, 0) == 0 then ShiftUp(t, 0) else ShiftUp(t, 0)[0 := XorByte(ShiftUp(t, 0)[0], 0x87)]
  }

  lemma ShiftUpBytes(t: Block, i: nat)
    requires i < 16
    ensures ShiftUp(t, 0)[i] == DoubleOf(t[i]) + if i == 0 then 0 else TopOf(t[i - 1])
  {
    ShiftUpAt(t, 0, i);
  }

  lemma CarriedByte(t: Block, i: nat)
    requires i < 16
    ensures Carried(t)[i] ==
            if i > 0 then DoubleOf(t[i]) + TopOf(t[i - 1])
            else if TopOf(t[15]) == 0 then DoubleOf(t[0]) else Xor(DoubleOf(t[0]), 0x87)
  {
    ShiftUpBytes(t, i);
  }

  lemma CarriedIsDoubled(t: Block, r: Block)
    ensures Doubled(t, r) <==> r == Carried(t)
  {
    forall i | 0 <= i < 16 ensures Doubled(t, r) ==> r[i] == Carried(t)[i] {
      CarriedByte(t, i);
    }
    if r == Carried(t) {
      forall i | 0 <= i < 16 ensures r[i] == if i > 0 then DoubleOf(t[i]) + TopOf(t[i - 1]) else r[0] {
        CarriedByte(t, i);
      }
      CarriedByte(t, 0);
    }
  }

  /** On the bytes, multiplication by x modulo x^128 + x^7 + x^2 + x + 1 is this, and nothing else. */
  lemma MulXBytes(t: Block, r: Block)
    ensures Value(r) == MulX(GF128, Value(t)) <==> Doubled(t, r)
  {
    CarriedIsDoubled(t, r);
    ShiftIsMulX(t, 0x87);
    LittleEndianRoundTrip(r);
    LittleEndianRoundTrip(Carried(t));
  }

  /** The byte loop computes multiplication by x modulo x^128 + x^7 + x^2 + x + 1. */
  method GfMulAlpha(t: Block) returns (r: Block)
    ensures Doubled(t, r)
    ensures Value(r) == MulX(GF128, Value(t)) && r == TimesAlpha(t)
  {
    var carry := And(Shr(t[15], 7), 1);
    CarryBit(t[15]);
    var result := new byte[16](_ => 0);
    for i := 16 downto 1
      invariant forall k :: i <= k < 16 ==> result[k] == ShiftUp(t, 0)[k]
    {
      ShiftedByte(t[i], t[i - 1]);
      ShiftUpAt(t, 0, i);
      result[i] := Or(Shl(8, t[i], 1), Shr(t[i - 1], 7));
    }
    ShlByte(t[0]);
    ShiftUpAt(t, 0, 0);
    result[0] := Shl(8, t[0], 1);
    assert result[..] == ShiftUp(t, 0);
    ShiftIsMulX(t, 0x87);
    if carry != 0 {
      result[0] := XorByte(result[0], 0x87);
      assert result[..] == ShiftUp(t, 0)[0 := XorByte(ShiftUp(t, 0)[0], 0x87)];
    }
    r := result[..];
    LittleEndianRoundTrip(r);
    MulXBytes(t, r);
  }

  lemma CarryBit(x: byte)
    ensures And(Shr(x, 7), 1) == x / 128
  {
    Pow2Values();
    ShrIsDivision(x, 7);
    AndMask(x / 128, 1);
    ShrIsDivision(x / 128, 1);
  }

  /** Multiplication by alpha is linear for XOR of blocks. */
  lemma TimesAlphaLinear(a: Block, b: Block)
    ensures TimesAlpha(XorBlocks(a, b)) == XorBlocks(TimesAlpha(a), TimesAlpha(b))
  {
    GF128Proper();
    ValueInField(a);
    ValueInField(b);
    ValueOfXor(a, b);
    MulXLinear(GF128, Value(a), Value(b));
    ValueOfTimesAlpha(a);
    ValueOfTimesAlpha(b);
    ValueOfXor(TimesAlpha(a), TimesAlpha(b));
    LittleEndianRoundTrip(XorBlocks(TimesAlpha(a), TimesAlpha(b)));
  }

  /** Division by alpha, on the bytes of a block. */
  function OverAlpha(t: Block): Block { BlockOf(DivX(GF128, Value(t))) }

  /** Multiplication by alpha is a bijection on the 16-byte arrays. */
  lemma TimesAlphaBijective(t: Block)
    ensures OverAlpha(TimesAlpha(t)) == t && TimesAlpha(OverAlpha(t)) == t
  {
    GF128Proper();
    ValueInField(t);
    MulXBijective(GF128, Value(t));
    ValueOfTimesAlpha(t);
    LittleEndianRoundTrip(t);
    LittleEndianInverse(DivX(GF128, Value(t)), 16);
  }

  lemma ValueInField(b: Block)
    ensures InField(GF128, Value(b))
  {
    LittleEndianBound(b);
  }

  lemma ValueOfTimesAlpha(t: Block)
    ensures Value(TimesAlpha(t)) == MulX(GF128, Value(t))
  {
    GF128Proper();
    ValueInField(t);
    MulXInField(GF128, Value(t));
    LittleEndianInverse(MulX(GF128, Value(t)), 16);
  }

  lemma ValueOfXor(a: Block, b: Block)
    ensures Value(XorBlocks(a, b)) == Xor(Value(a), Value(b))
  {
    LittleEndianCombine(XorGate, a, b, XorBlocks(a, b));
  }

  // -- The standard's encryption and decryption -----------------------------------------------

  /** The tweak of block `j` of a data unit whose number encrypts to `t`: alpha^j times t. */
  function Tweak(t: Block, j: nat): Block { BlockOf(Mul(GF128, AlphaPower(GF128, j), Value(t))) }

  function CryptBlock(cipher: Cipher, key: Key, p: Block, t: Block): Block {
    XorBlocks(cipher(key, XorBlocks(p, t)), t)
  }

  /** What happens to the blocks of a data unit, by block number. */
  type UnitCipher = (nat, Block) -> Block

  function CipherOfUnit(cipher: Cipher, key: Key, t: Block): UnitCipher {
    (j, p) => CryptBlock(cipher, key, p, Tweak(t, j))
  }

  /** Blocks from number `j` on; a final chunk shorter than a block is passed through. */
  function Blockwise(f: UnitCipher, j: nat, data: seq<byte>): (r: seq<byte>)
    ensures |r| == |data|
    decreases |data|
  {
    if |data| < 16 then data else f(j, data[..16]) + Blockwise(f, j + 1, data[16..])
  }

  /** The little-endian data-unit number, as a block. */
  function SectorBlock(sector: nat): Block { LittleEndianBytes(sector, 16) }

  /** A data unit under the two keys: `enc` makes the tweak both for encryption and decryption. */
  function CryptSector(enc: Cipher, cipher: Cipher, key1: Key, key2: Key, sector: nat, data: seq<byte>): (r: seq<byte>)
    ensures |r| == |data|
  {
    Blockwise(CipherOfUnit(cipher, key1, enc(key2, SectorBlock(sector))), 0, data)
  }

  lemma BlockRestored(enc: Cipher, dec: Cipher, key: Key, p: Block, t: Block)
    requires Inverse(enc, dec)
    ensures CryptBlock(dec, key, CryptBlock(enc, key, p, t), t) == p
  {
    XorBlocksCancel(enc(key, XorBlocks(p, t)), t);
    XorBlocksCancel(p, t);
  }

  lemma {:induction false} BlockwiseRestored(f: UnitCipher, g: UnitCipher, j: nat, data: seq<byte>)
    requires forall k: nat, p: Block {:trigger f(k, p)} :: g(k, f(k, p)) == p
    ensures Blockwise(g, j, Blockwise(f, j, data)) == data
    decreases |data|
  {
    if |data| >= 16 {
      var first: seq<byte>, rest := f(j, data[..16]), Blockwise(f, j + 1, data[16..]);
      BlockwiseRestored(f, g, j + 1, data[16..]);
      assert (first + rest)[..16] == first && (first + rest)[16..] == rest;
      assert data[..16] + data[16..] == data;
    }
  }

  /** Decryption restores what XTS encrypted, for every cipher, key pair, sector number and data. */
  lemma SectorRestored(enc: Cipher, dec: Cipher, key1: Key, key2: Key, sector: nat, data: seq<byte>)
    requires Inverse(enc, dec)
    ensures CryptSector(enc, dec, key1, key2, sector, CryptSector(enc, enc, key1, key2, sector, data)) == data
  {
    var t := enc(key2, SectorBlock(sector));
    var f, g := CipherOfUnit(enc, key1, t), CipherOfUnit(dec, key1, t);
    forall k: nat, p: Block {:trigger f(k, p)} ensures g(k, f(k, p)) == p {
      BlockRestored(enc, dec, key1, p, Tweak(t, k));
    }
    BlockwiseRestored(f, g, 0, data);
  }

  // -- Block by block -----------------------------------------------------------------------------

  /** The bytes behind the first block. */
  lemma BlockwiseRest(f: UnitCipher, j: nat, data: seq<byte>)
    requires |data| >= 16
    ensures Blockwise(f, j, data)[..16] == f(j, data[..16])
    ensures Blockwise(f, j, data)[16..] == Blockwise(f, j + 1, data[16..])
  {
    var first: seq<byte>, rest := f(j, data[..16]), Blockwise(f, j + 1, data[16..]);
    assert (first + rest)[..16] == first && (first + rest)[16..] == rest;
  }

  /** Block `k` of some bytes. */
  function NthBlock(s: seq<byte>, k: nat): Block
    requires 16 * k + 16 <= |s|
  {
    s[16 * k..16 * k + 16]
  }

  lemma BlockBehind(s: seq<byte>, k: nat)
    requires k > 0 && 16 * k + 16 <= |s|
    ensures NthBlock(s, k) == NthBlock(s[16..], k - 1)
  {
    forall i | 0 <= i < 16 ensures NthBlock(s, k)[i] == NthBlock(s[16..], k - 1)[i] {
    }
  }

  lemma {:induction false} BlockwiseAt(f: UnitCipher, j: nat, data: seq<byte>, k: nat)
    requires 16 * k + 16 <= |data|
    ensures NthBlock(Blockwise(f, j, data), k) == f(j + k, NthBlock(data, k))
    decreases k
  {
    BlockwiseRest(f, j, data);
    if k > 0 {
      BlockwiseAt(f, j + 1, data[16..], k - 1);
      BlockBehind(Blockwise(f, j, data), k);
      BlockBehind(data, k);
    }
  }

  lemma {:induction false} BlockwiseTail(f: UnitCipher, j: nat, data: seq<byte>, i: nat)
    requires |data| / 16 * 16 <= i < |data|
    ensures Blockwise(f, j, data)[i] == data[i]
    decreases |data|
  {
    if |data| >= 16 {
      BlockwiseTail(f, j + 1, data[16..], i - 16);
    }
  }

  /** The first tweak, then each the double of the one before. */
  ghost predicate TweakChain(tweaks: seq<Block>, first: Block) {
    && |tweaks| > 0 && tweaks[0] == first
    && forall j :: 0 <= j < |tweaks| - 1 ==> Value(tweaks[j + 1]) == MulX(GF128, Value(tweaks[j]))
  }

  /** A block before and after: what the cipher makes of the one under the tweak is the other under the tweak. */
  ghost predicate BlockCrypted(cipher: Cipher, key: Key, t: Block, before: Block, after: Block) {
    forall i :: 0 <= i < 16 ==> Xor(after[i], t[i]) == cipher(key, XorBlocks(before, t))[i]
  }

  /** A data unit before and after: the tweaks start with the encrypted number of the unit, in eight bytes and eight
      zeros, and every whole block is processed under its own; what is left over stays. */
  ghost predicate UnitCrypted(enc: Cipher, cipher: Cipher, key1: Key, key2: Key, sector: nat, before: seq<byte>,
                              after: seq<byte>) {
    && |after| == |before|
    && (forall i :: |before| / 16 * 16 <= i < |before| ==> after[i] == before[i])
    && exists tweaks: seq<Block> ::
      && TweakChain(tweaks, enc(key2, LittleEndianBytes(sector, 8) + [0, 0, 0, 0, 0, 0, 0, 0]))
      && |tweaks| == |before| / 16 + 1
      && forall j {:trigger tweaks[j]} :: 0 <= j < |before| / 16 ==>
        BlockCrypted(cipher, key1, tweaks[j], before[16 * j..16 * j + 16], after[16 * j..16 * j + 16])
  }

  lemma CryptBlockUndone(cipher: Cipher, key: Key, p: Block, t: Block, r: Block)
    requires r == CryptBlock(cipher, key, p, t)
    ensures BlockCrypted(cipher, key, t, p, r)
  {
    XorBlocksCancel(cipher(key, XorBlocks(p, t)), t);
    forall i | 0 <= i < 16 ensures Xor(r[i], t[i]) == cipher(key, XorBlocks(p, t))[i] {
      assert XorBlocks(r, t)[i] == Xor(r[i], t[i]);
    }
  }

  /** The tweaks of a data unit. */
  function Tweaks(t: Block, n: nat): (tweaks: seq<Block>)
    ensures |tweaks| == n + 1
  {
    seq(n + 1, j requires 0 <= j => Tweak(t, j))
  }

  lemma TweaksChain(t: Block, n: nat)
    ensures TweakChain(Tweaks(t, n), t)
  {
    FirstTweak(t);
    forall j | 0 <= j < n ensures Value(Tweak(t, j + 1)) == MulX(GF128, Value(Tweak(t, j))) {
      ValueOfTimesAlpha(Tweak(t, j));
      NextTweak(t, j, TimesAlpha(Tweak(t, j)));
    }
  }

  /** The standard's data unit, block by block, whatever the cipher. */
  lemma CryptSectorUnits(enc: Cipher, cipher: Cipher, key1: Key, key2: Key, sector: nat, data: seq<byte>,
                         after: seq<byte>)
    requires sector < 0x1_0000_0000_0000_0000 && after == CryptSector(enc, cipher, key1, key2, sector, data)
    ensures UnitCrypted(enc, cipher, key1, key2, sector, data, after)
  {
    var first := enc(key2, SectorBlock(sector));
    var n, f := |data| / 16, CipherOfUnit(cipher, key1, first);
    var tweaks := Tweaks(first, n);
    SectorPadding(sector);
    assert [0, 0, 0, 0, 0, 0, 0, 0] == seq<byte>(8, _ => 0);
    TweaksChain(first, n);
    forall i | n * 16 <= i < |data| ensures after[i] == data[i] {
      BlockwiseTail(f, 0, data, i);
    }
    forall j {:trigger tweaks[j]} | 0 <= j < n
      ensures BlockCrypted(cipher, key1, tweaks[j], data[16 * j..16 * j + 16], after[16 * j..16 * j + 16])
    {
      UnitBlock(cipher, key1, first, 0, data, after, j);
    }
  }

  lemma UnitBlock(cipher: Cipher, key: Key, first: Block, start: nat, data: seq<byte>, after: seq<byte>, j: nat)
    requires after == Blockwise(CipherOfUnit(cipher, key, first), start, data) && 16 * j + 16 <= |data| && start == 0
    ensures BlockCrypted(cipher, key, Tweak(first, j), data[16 * j..16 * j + 16], after[16 * j..16 * j + 16])
  {
    var f := CipherOfUnit(cipher, key, first);
    UnitBlockAt(f, start, data, after, j);
    UnitBlockCrypted(cipher, key, first, j, data[16 * j..16 * j + 16], f(j, data[16 * j..16 * j + 16]));
  }

  lemma UnitBlockAt(f: UnitCipher, start: nat, data: seq<byte>, after: seq<byte>, j: nat)
    requires after == Blockwise(f, start, data) && 16 * j + 16 <= |data| && start == 0
    ensures after[16 * j..16 * j + 16] == f(j, data[16 * j..16 * j + 16])
  {
    BlockwiseAt(f, start, data, j);
  }

  lemma UnitBlockCrypted(cipher: Cipher, key: Key, first: Block, j: nat, p: Block, r: Block)
    requires r == CipherOfUnit(cipher, key, first)(j, p)
    ensures BlockCrypted(cipher, key, Tweak(first, j), p, r)
  {
    CryptBlockUndone(cipher, key, p, Tweak(first, j), r);
  }

  // -- The in-place routines --------------------------------------------------------------------

  lemma FirstTweak(t: Block)
    ensures Tweak(t, 0) == t
  {
    GF128Proper();
    MulUnfold(GF128, 1, Value(t));
    CombineZero(Value(t));
    LittleEndianRoundTrip(t);
  }

  lemma NextTweak(t: Block, j: nat, next: Block)
    requires Value(next) == MulX(GF128, Value(Tweak(t, j)))
    ensures next == Tweak(t, j + 1)
  {
    GF128Proper();
    ValueInField(t);
    AlphaAdvances(GF128, j, Value(t));
    MulInField(GF128, AlphaPower(GF128, j), Value(t));
    LittleEndianInverse(Mul(GF128, AlphaPower(GF128, j), Value(t)), 16);
    LittleEndianRoundTrip(next);
  }

  function BlockReplaced(data: seq<byte>, pos: nat, block: Block): (r: seq<byte>)
    requires pos + 16 <= |data|
    ensures |r| == |data|
  {
    data[..pos] + block + data[pos + 16..]
  }

  /** One block of the buffer, in place. */
  method DecryptBlockAt(dec: Cipher, key: Key, t: Block, data: array<byte>, pos: nat)
    requires pos + 16 <= data.Length
    modifies data
    ensures data[..] == BlockReplaced(old(data[..]), pos, CryptBlock(dec, key, old(data[pos..pos + 16]), t))
  {
    var chunk := data[pos..pos + 16];
    var block := XorBlocks(chunk, t);
    block := dec(key, block);
    block := XorBlocks(block, t);
    forall i | 0 <= i < 16 {
      data[pos + i] := block[i];
    }
  }

  /** The buffer `now` while a data unit is processed: `done` is finished, and finishing the rest of
      `unit` from block `j` on gives `goal`. */
  ghost predicate Progress(now: seq<byte>, before: seq<byte>, done: seq<byte>, unit: seq<byte>, after: seq<byte>,
                           f: UnitCipher, j: nat, goal: seq<byte>) {
    && |done| <= |unit| && now == before + done + unit[|done|..] + after
    && done + Blockwise(f, j, unit[|done|..]) == goal
  }

  lemma BlockDone(now: seq<byte>, before: seq<byte>, done: seq<byte>, unit: seq<byte>, after: seq<byte>,
                  f: UnitCipher, j: nat, goal: seq<byte>, pos: nat) returns (done': seq<byte>)
    requires Progress(now, before, done, unit, after, f, j, goal) && |done| + 16 <= |unit|
    requires pos == |before| + |done|
    ensures Progress(BlockReplaced(now, pos, f(j, now[pos..pos + 16])), before, done', unit, after, f, j + 1, goal)
    ensures |done'| == |done| + 16
  {
    BlockAt(now, before, done, unit, after);
    var block := f(j, now[pos..pos + 16]);
    done' := done + block;
    var rest := unit[|done|..];
    assert rest[..16] == now[pos..pos + 16] && rest[16..] == unit[|done'|..];
    Regroup(before, done, block, unit[|done'|..], after);
  }

  /** The next block of the unit in the buffer, and what is on either side of it. */
  lemma BlockAt(now: seq<byte>, before: seq<byte>, done: seq<byte>, unit: seq<byte>, after: seq<byte>)
    requires |done| + 16 <= |unit| && now == before + done + unit[|done|..] + after
    ensures var pos := |before| + |done|;
      && now[..pos] == before + done && now[pos..pos + 16] == unit[|done|..|done| + 16]
      && now[pos + 16..] == unit[|done| + 16..] + after
  {
  }

  lemma Regroup(a: seq<byte>, b: seq<byte>, c: seq<byte>, d: seq<byte>, e: seq<byte>)
    ensures (a + b) + c + (d + e) == a + (b + c) + d + e
  {
  }

  /** A chunk shorter than a block is left as it is, and the unit is finished. */
  lemma UnitDone(now: seq<byte>, before: seq<byte>, done: seq<byte>, unit: seq<byte>, after: seq<byte>,
                 f: UnitCipher, j: nat, goal: seq<byte>)
    requires Progress(now, before, done, unit, after, f, j, goal) && |unit| < |done| + 16
    ensures now == before + goal + after
  {
  }

  /** Decrypts the bytes `start` to `end` of the buffer, a data unit, in place. */
  method XtsDecryptSector(enc: Cipher, dec: Cipher, key1: Key, key2: Key, sector: nat, data: array<byte>, start: nat,
                          end: nat)
    requires sector < 0x1_0000_0000_0000_0000
    requires start <= end <= data.Length
    modifies data
    ensures data[..] ==
      old(data[..start]) + CryptSector(enc, dec, key1, key2, sector, old(data[start..end])) + old(data[end..])
    ensures UnitCrypted(enc, dec, key1, key2, sector, old(data[start..end]), data[start..end])
  {
    ghost var before, unit, after := data[..start], data[start..end], data[end..];
    ghost var goal := CryptSector(enc, dec, key1, key2, sector, unit);
    ghost var first := enc(key2, SectorBlock(sector));
    ghost var f := CipherOfUnit(dec, key1, first);
    var tweakInput := LittleEndianBytes(sector, 8) + seq(8, _ => 0);
    SectorPadding(sector);
    var t := enc(key2, tweakInput);
    FirstTweak(first);
    var pos := start;
    ghost var j := 0;
    ghost var done: seq<byte> := [];
    assert unit[0..] == unit;
    while pos < end && end - pos >= 16
      invariant start <= pos <= end && |done| == pos - start && t == Tweak(first, j)
      invariant Progress(data[..], before, done, unit, after, f, j, goal)
    {
      done := BlockDone(data[..], before, done, unit, after, f, j, goal, pos);
      DecryptBlockAt(dec, key1, t, data, pos);
      var next := GfMulAlpha(t);
      NextTweak(first, j, next);
      t := next;
      j := j + 1;
      pos := pos + 16;
    }
    UnitDone(data[..], before, done, unit, after, f, j, goal);
    Middle(before, goal, after);
    CryptSectorUnits(enc, dec, key1, key2, sector, unit, data[start..end]);
  }

  lemma Middle(a: seq<byte>, b: seq<byte>, c: seq<byte>)
    ensures (a + b + c)[|a|..|a| + |b|] == b
  {
  }

  lemma SectorPadding(sector: nat)
    requires sector < 0x1_0000_0000_0000_0000
    ensures LittleEndianBytes(sector, 8) + seq(8, _ => 0) == SectorBlock(sector)
  {
    Take8(sector);
  }

  /** A number below 2^64 has eight zero bytes above its eight low ones. */
  lemma Take8(v: nat)
    requires v < 0x1_0000_0000_0000_0000
    ensures LittleEndianBytes(v, 16) == LittleEndianBytes(v, 8) + seq(8, _ => 0)
  {
    BytesAppend(v, 8, 8);
    Pow2Values();
    RaiseTwice(1, 32, 32);
    Raise16(0x1_0000_0000);
    Raise16(0x1_0000_0000_0000);
    RaiseTwice(0x1_0000_0000, 16, 16);
    NoHigherBytes(v, 8);
    ZeroBytes(8);
  }

  lemma {:induction false} NoHigherBytes(v: nat, n: nat)
    requires v < Pow2(8 * n)
    ensures ShiftBytes(v, n) == 0
    decreases n
  {
    if n > 0 {
      RaiseByte(1, n - 1);
      NoHigherBytes(v / 256, n - 1);
    }
  }

  function ShiftBytes(v: nat, n: nat): nat
    decreases n, v
  {
    if n == 0 then v else ShiftBytes(v / 256, n - 1)
  }

  lemma {:induction false} BytesAppend(v: nat, m: nat, n: nat)
    ensures LittleEndianBytes(v, m + n) == LittleEndianBytes(v, m) + LittleEndianBytes(ShiftBytes(v, m), n)
    decreases m
  {
    if m > 0 {
      BytesAppend(v / 256, m - 1, n);
    }
  }

  lemma {:induction false} ZeroBytes(n: nat)
    ensures LittleEndianBytes(0, n) == seq(n, _ => 0)
  {
    if n > 0 {
      ZeroBytes(n - 1);
    }
  }

  // -- The header -------------------------------------------------------------------------------

  type Sector = s: seq<byte> | |s| == SECTOR_SIZE witness seq(SECTOR_SIZE, _ => 0)

  /** What happens to the sectors of the header, by sector number. */
  type HeaderCipher = (nat, Sector) -> Sector

  function CipherOfHeader(enc: Cipher, cipher: Cipher, key1: Key, key2: Key): HeaderCipher {
    (n, s) => CryptSector(enc, cipher, key1, key2, n, s)
  }

  /** Whole sectors from number `n` to the last, each its own data unit; the rest is untouched. */
  function Sectorwise(g: HeaderCipher, n: nat, data: seq<byte>): (r: seq<byte>)
    ensures |r| == |data|
    decreases |data|
  {
    if n >= SECTORS || |data| < SECTOR_SIZE then data
    else g(n, data[..SECTOR_SIZE]) + Sectorwise(g, n + 1, data[SECTOR_SIZE..])
  }

  function CryptHeader(enc: Cipher, cipher: Cipher, key1: Key, key2: Key, header: seq<byte>): (r: seq<byte>)
    ensures |r| == |header|
  {
    Sectorwise(CipherOfHeader(enc, cipher, key1, key2), 0, header)
  }

  lemma {:induction false} SectorwiseRestored(f: HeaderCipher, g: HeaderCipher, n: nat, data: seq<byte>)
    requires forall k: nat, s: Sector {:trigger f(k, s)} :: g(k, f(k, s)) == s
    ensures Sectorwise(g, n, Sectorwise(f, n, data)) == data
    decreases |data|
  {
    if n < SECTORS && |data| >= SECTOR_SIZE {
      var first: seq<byte>, rest := f(n, data[..SECTOR_SIZE]), Sectorwise(f, n + 1, data[SECTOR_SIZE..]);
      SectorwiseRestored(f, g, n + 1, data[SECTOR_SIZE..]);
      assert (first + rest)[..SECTOR_SIZE] == first && (first + rest)[SECTOR_SIZE..] == rest;
      assert data[..SECTOR_SIZE] + data[SECTOR_SIZE..] == data;
    }
  }

  /** Header decryption restores what per-sector encryption produced, whatever the length. */
  lemma HeaderRestored(enc: Cipher, dec: Cipher, key1: Key, key2: Key, header: seq<byte>)
    requires Inverse(enc, dec)
    ensures CryptHeader(enc, dec, key1, key2, CryptHeader(enc, enc, key1, key2, header)) == header
  {
    var f, g := CipherOfHeader(enc, enc, key1, key2), CipherOfHeader(enc, dec, key1, key2);
    forall k: nat, s: Sector {:trigger f(k, s)} ensures g(k, f(k, s)) == s {
      SectorRestored(enc, dec, key1, key2, k, s);
    }
    SectorwiseRestored(f, g, 0, header);
  }

  /** Sector `n` of a header. */
  function SectorAt(header: seq<byte>, n: nat): Sector
    requires 0x200 * (n + 1) <= |header|
  {
    header[0x200 * n..0x200 * (n + 1)]
  }

  lemma SectorBehind(s: seq<byte>, k: nat)
    requires k > 0 && 0x200 * (k + 1) <= |s|
    ensures SectorAt(s, k) == SectorAt(s[0x200..], k - 1)
  {
    forall i | 0 <= i < 0x200 ensures SectorAt(s, k)[i] == SectorAt(s[0x200..], k - 1)[i] {
    }
  }

  /** The bytes behind the first sector. */
  lemma SectorwiseRest(g: HeaderCipher, n: nat, data: seq<byte>)
    requires n < SECTORS && |data| >= SECTOR_SIZE
    ensures Sectorwise(g, n, data)[..SECTOR_SIZE] == g(n, data[..SECTOR_SIZE])
    ensures Sectorwise(g, n, data)[SECTOR_SIZE..] == Sectorwise(g, n + 1, data[SECTOR_SIZE..])
  {
    var first: seq<byte>, rest := g(n, data[..SECTOR_SIZE]), Sectorwise(g, n + 1, data[SECTOR_SIZE..]);
    assert (first + rest)[..SECTOR_SIZE] == first && (first + rest)[SECTOR_SIZE..] == rest;
  }

  lemma {:induction false} SectorwiseAt(g: HeaderCipher, n: nat, data: seq<byte>, k: nat)
    requires n + k < SECTORS && 0x200 * (k + 1) <= |data|
    ensures SectorAt(Sectorwise(g, n, data), k) == g(n + k, SectorAt(data, k))
    decreases k
  {
    SectorwiseRest(g, n, data);
    if k > 0 {
      SectorwiseAt(g, n + 1, data[0x200..], k - 1);
      SectorBehind(Sectorwise(g, n, data), k);
      SectorBehind(data, k);
    }
  }

  /** Bytes behind the last whole sector, or behind the last one there may be. */
  lemma {:induction false} SectorwiseTail(g: HeaderCipher, n: nat, data: seq<byte>, i: nat)
    requires i < |data| && n <= SECTORS
    requires i >= SECTOR_SIZE * (SECTORS - n) || i >= |data| / SECTOR_SIZE * SECTOR_SIZE
    ensures Sectorwise(g, n, data)[i] == data[i]
    decreases |data|
  {
    if n < SECTORS && |data| >= SECTOR_SIZE {
      SectorwiseTail(g, n + 1, data[SECTOR_SIZE..], i - SECTOR_SIZE);
    }
  }

  /** A header before and after: each of the first six sectors that is there is a data unit with its own number, and
      what comes behind them stays. */
  ghost predicate HeaderCrypted(enc: Cipher, cipher: Cipher, key1: Key, key2: Key, before: seq<byte>,
                                after: seq<byte>) {
    && |after| == |before|
    && (forall n: nat {:trigger SectorAt(before, n)} :: n < 6 && 0x200 * (n + 1) <= |before| ==>
      UnitCrypted(enc, cipher, key1, key2, n, SectorAt(before, n), SectorAt(after, n)))
    && forall i :: (0x200 * 6 <= i < |before| || |before| / 0x200 * 0x200 <= i < |before|) ==> after[i] == before[i]
  }

  lemma HeaderUnitAt(g: HeaderCipher, start: nat, header: seq<byte>, after: seq<byte>, n: nat)
    requires after == Sectorwise(g, start, header) && start == 0 && n < 6 && 0x200 * (n + 1) <= |header|
    ensures SectorAt(after, n) == g(n, SectorAt(header, n))
  {
    SectorwiseAt(g, start, header, n);
  }

  lemma HeaderUnit(enc: Cipher, cipher: Cipher, key1: Key, key2: Key, header: seq<byte>, after: seq<byte>, n: nat)
    requires n < 6 && 0x200 * (n + 1) <= |header| && after == CryptHeader(enc, cipher, key1, key2, header)
    ensures UnitCrypted(enc, cipher, key1, key2, n, SectorAt(header, n), SectorAt(after, n))
  {
    HeaderUnitAt(CipherOfHeader(enc, cipher, key1, key2), 0, header, after, n);
    CryptSectorUnits(enc, cipher, key1, key2, n, SectorAt(header, n), SectorAt(after, n));
  }

  lemma CryptHeaderUnits(enc: Cipher, cipher: Cipher, key1: Key, key2: Key, header: seq<byte>)
    ensures HeaderCrypted(enc, cipher, key1, key2, header, CryptHeader(enc, cipher, key1, key2, header))
  {
    var after := CryptHeader(enc, cipher, key1, key2, header);
    forall n: nat {:trigger SectorAt(header, n)} | n < 6 && 0x200 * (n + 1) <= |header|
      ensures UnitCrypted(enc, cipher, key1, key2, n, SectorAt(header, n), SectorAt(after, n))
    {
      HeaderUnit(enc, cipher, key1, key2, header, after, n);
    }
    forall i | 0x200 * 6 <= i < |header| || |header| / 0x200 * 0x200 <= i < |header| ensures after[i] == header[i] {
      SectorwiseTail(CipherOfHeader(enc, cipher, key1, key2), 0, header, i);
    }
  }

  /** What becomes of the bytes from sector `n` on, as a function value. */
  type Finisher = (nat, seq<byte>) -> seq<byte>

  ghost predicate Finishes(finish: Finisher, g: HeaderCipher) {
    forall n, rest {:trigger Sectorwise(g, n, rest)} :: finish(n, rest) == Sectorwise(g, n, rest)
  }

  /** The header before sector `n`: `done` is finished, and finishing the rest gives `goal`. */
  ghost predicate HeaderProgress(now: seq<byte>, done: seq<byte>, header: seq<byte>, finish: Finisher, n: nat,
                                 goal: seq<byte>) {
    |done| <= |header| && now == done + header[|done|..] && done + finish(n, header[|done|..]) == goal
  }

  lemma SectorNext(g: HeaderCipher, finish: Finisher, n: nat, rest: seq<byte>)
    requires Finishes(finish, g) && n < SECTORS && SECTOR_SIZE <= |rest|
    ensures finish(n, rest) == g(n, rest[..SECTOR_SIZE]) + finish(n + 1, rest[SECTOR_SIZE..])
  {
    assert Sectorwise(g, n, rest) == g(n, rest[..SECTOR_SIZE]) + Sectorwise(g, n + 1, rest[SECTOR_SIZE..]);
  }

  lemma SectorDone(now: seq<byte>, done: seq<byte>, header: seq<byte>, g: HeaderCipher, finish: Finisher, n: nat,
                   goal: seq<byte>)
    returns (done': seq<byte>)
    requires Finishes(finish, g) && HeaderProgress(now, done, header, finish, n, goal)
    requires n < SECTORS && |done| + SECTOR_SIZE <= |header|
    ensures |done'| == |done| + SECTOR_SIZE <= |now|
    ensures HeaderProgress(now[..|done|] + g(n, now[|done|..|done'|]) + now[|done'|..], done', header, finish, n + 1,
                           goal)
  {
    var rest := header[|done|..];
    var end := |done| + SECTOR_SIZE;
    assert now[|done|..end] == rest[..SECTOR_SIZE];
    assert rest[SECTOR_SIZE..] == header[end..] == now[end..] && now[..|done|] == done;
    SectorNext(g, finish, n, rest);
    done' := done + g(n, now[|done|..end]);
  }

  lemma HeaderDone(now: seq<byte>, done: seq<byte>, header: seq<byte>, g: HeaderCipher, finish: Finisher, n: nat,
                   goal: seq<byte>)
    requires Finishes(finish, g) && HeaderProgress(now, done, header, finish, n, goal)
    requires n >= SECTORS || |header| < |done| + SECTOR_SIZE
    ensures now == goal
  {
    assert Sectorwise(g, n, header[|done|..]) == header[|done|..];
  }

  /** One sector of the header. */
  method DecryptSectorAt(enc: Cipher, dec: Cipher, key1: Key, key2: Key, n: nat, data: array<byte>,
                         ghost done: seq<byte>, ghost header: seq<byte>, ghost finish: Finisher, ghost goal: seq<byte>)
    returns (ghost done': seq<byte>)
    requires n < SECTORS && |done| == n * SECTOR_SIZE && |done| + SECTOR_SIZE <= data.Length
    requires Finishes(finish, CipherOfHeader(enc, dec, key1, key2))
    requires HeaderProgress(data[..], done, header, finish, n, goal)
    modifies data
    ensures |done'| == |done| + SECTOR_SIZE && HeaderProgress(data[..], done', header, finish, n + 1, goal)
  {
    done' := SectorDone(data[..], done, header, CipherOfHeader(enc, dec, key1, key2), finish, n, goal);
    XtsDecryptSector(enc, dec, key1, key2, n, data, n * SECTOR_SIZE, n * SECTOR_SIZE + SECTOR_SIZE);
  }

  /** The sectors of the header in turn, as far as there are any. */
  method DecryptSectors(enc: Cipher, dec: Cipher, key1: Key, key2: Key, data: array<byte>,
                        ghost header: seq<byte>, ghost finish: Finisher, ghost goal: seq<byte>)
    requires Finishes(finish, CipherOfHeader(enc, dec, key1, key2))
    requires HeaderProgress(data[..], [], header, finish, 0, goal)
    modifies data
    ensures data[..] == goal
  {
    ghost var done: seq<byte> := [];
    var n := 0;
    while n < 6 && n * SECTOR_SIZE + SECTOR_SIZE <= data.Length
      invariant n <= 6 && |done| == n * SECTOR_SIZE
      invariant HeaderProgress(data[..], done, header, finish, n, goal)
    {
      done := DecryptSectorAt(enc, dec, key1, key2, n, data, done, header, finish, goal);
      n := n + 1;
    }
    HeaderDone(data[..], done, header, CipherOfHeader(enc, dec, key1, key2), finish, n, goal);
  }

  /** Decrypts the six sectors of the header in place; the first half of the key is the cipher key,
      the second the tweak key. */
  method XtsDecryptHeader(enc: Cipher, dec: Cipher, headerKey: seq<byte>, data: array<byte>)
    requires |headerKey| == 32
    modifies data
    ensures data[..] == CryptHeader(enc, dec, headerKey[..16], headerKey[16..], old(data[..]))
    ensures HeaderCrypted(enc, dec, headerKey[..16], headerKey[16..], old(data[..]), data[..])
  {
    var key1, key2 := headerKey[..16], headerKey[16..];
    ghost var header, g := data[..], CipherOfHeader(enc, dec, key1, key2);
    ghost var finish: Finisher := (n: nat, rest: seq<byte>) => Sectorwise(g, n, rest);
    assert header[0..] == header;
    DecryptSectors(enc, dec, key1, key2, data, header, finish, CryptHeader(enc, dec, key1, key2, header));
    CryptHeaderUnits(enc, dec, key1, key2, header);
  }
}
