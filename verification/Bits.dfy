/** Machine-word bit operations on natural numbers.

    The shifts and gates the programs apply to `u8`, `u32`, `usize` and `u128` values are
    modelled on `nat`; a word of `w` bits is a number below `Pow2(w)`. */
module Bits {

  type byte = n: nat | n < 256
  type u32 = n: nat | n < 0x1_0000_0000
  type u64 = n: nat | n < 0x1_0000_0000_0000_0000

  // -- Shifts --------------------------------------------------------------------

  /** `a` followed by `k` zero bits: `a` times two to the `k`. */
  function Raise(a: nat, k: nat): (r: nat)
    ensures a <= r
    decreases k, a
  {
    if k == 0 then a else 2 * Raise(a, k - 1)
  }

  function Pow2(k: nat): (p: nat)
    ensures p >= 1
  {
    Raise(1, k)
  }

  /** The low `k` bits of a word. */
  function Low(a: nat, k: nat): nat
    decreases k, a
  {
    if k == 0 then 0 else 2 * Low(a / 2, k - 1) + a % 2
  }

  /** The bits of a word above the low `k`. */
  function Shr(a: nat, k: nat): nat
    decreases k, a
  {
    if k == 0 then a else Shr(a / 2, k - 1)
  }

  /** `a << k` in a word of `w` bits: bits pushed past the top are lost. */
  function Shl(w: nat, a: nat, k: nat): nat { Low(Raise(a, k), w) }

  lemma {:induction false} RaiseIsProduct(a: nat, k: nat)
    ensures Raise(a, k) == a * Pow2(k)
  {
    if k > 0 {
      RaiseIsProduct(a, k - 1);
      assert a * (2 * Pow2(k - 1)) == 2 * (a * Pow2(k - 1));
    }
  }

  lemma {:induction false} RaiseAdd(a: nat, b: nat, k: nat)
    ensures Raise(a + b, k) == Raise(a, k) + Raise(b, k)
  {
    if k > 0 {
      RaiseAdd(a, b, k - 1);
    }
  }

  lemma {:induction false} RaiseTwice(a: nat, j: nat, k: nat)
    ensures Raise(Raise(a, j), k) == Raise(a, j + k)
  {
    if k > 0 {
      RaiseTwice(a, j, k - 1);
    }
  }

  lemma {:induction false} RaiseZero(k: nat)
    ensures Raise(0, k) == 0
  {
    if k > 0 {
      RaiseZero(k - 1);
    }
  }

  lemma {:induction false} RaiseMonotone(a: nat, b: nat, k: nat)
    requires a <= b
    ensures Raise(a, k) <= Raise(b, k)
  {
    if k > 0 {
      RaiseMonotone(a, b, k - 1);
    }
  }

  lemma {:induction false} Pow2Monotone(a: nat, b: nat)
    requires a <= b
    ensures Pow2(a) <= Pow2(b)
    decreases b
  {
    if a < b {
      Pow2Monotone(a, b - 1);
    }
  }

  /** A digit below two to the `k` fits under a raised number. */
  lemma RaiseBound(a: nat, b: nat, r: nat, k: nat)
    requires a < b && r < Pow2(k)
    ensures Raise(a, k) + r < Raise(b, k)
  {
    RaiseAdd(a, 1, k);
    RaiseMonotone(a + 1, b, k);
  }

  lemma Pow2Values()
    ensures Pow2(0) == 1 && Pow2(1) == 2 && Pow2(2) == 4 && Pow2(7) == 128 && Pow2(8) == 256 && Pow2(11) == 2048
    ensures Pow2(12) == 4096 && Pow2(16) == 0x1_0000 && Pow2(24) == 0x100_0000
    ensures Pow2(32) == 0x1_0000_0000
  {
    Raise8(1);
    RaiseTwice(1, 8, 3);
    RaiseTwice(1, 8, 4);
    RaiseTwice(1, 8, 8);
    Raise16(1);
    Raise8(0x1_0000);
    Raise16(0x1_0000);
    RaiseTwice(1, 16, 8);
    RaiseTwice(1, 16, 16);
  }

  lemma Raise4(a: nat)
    ensures Raise(a, 4) == 16 * a
  {
    assert Raise(a, 1) == 2 * a;
    assert Raise(a, 2) == 4 * a;
    assert Raise(a, 3) == 8 * a;
  }

  lemma Raise8(a: nat)
    ensures Raise(a, 8) == 256 * a
  {
    Raise4(a);
    Raise4(16 * a);
    RaiseTwice(a, 4, 4);
  }

  lemma Raise16(a: nat)
    ensures Raise(a, 16) == 0x1_0000 * a
  {
    Raise8(a);
    Raise8(256 * a);
    RaiseTwice(a, 8, 8);
  }

  /** A word is its high bits raised, and its low bits. */
  lemma {:induction false} ShrLow(a: nat, k: nat)
    ensures a == Raise(Shr(a, k), k) + Low(a, k)
    ensures Low(a, k) < Pow2(k)
  {
    if k > 0 {
      ShrLow(a / 2, k - 1);
    }
  }

  /** High and low bits of a word put together from both. */
  lemma {:induction false} ShrLowUnique(q: nat, r: nat, k: nat)
    requires r < Pow2(k)
    ensures Shr(Raise(q, k) + r, k) == q && Low(Raise(q, k) + r, k) == r
  {
    if k > 0 {
      ShrLowUnique(q, r / 2, k - 1);
      assert (Raise(q, k) + r) / 2 == Raise(q, k - 1) + r / 2;
    }
  }

  /** Shifting right and keeping low bits are division and remainder. */
  lemma ShrIsDivision(a: nat, k: nat)
    ensures Shr(a, k) == a / Pow2(k) && Low(a, k) == a % Pow2(k)
  {
    ShrLow(a, k);
    RaiseIsProduct(Shr(a, k), k);
    DivModUnique(a, Pow2(k), Shr(a, k), Low(a, k));
  }

  lemma MultipleAtLeast(k: int, d: int)
    requires d >= 0
    ensures k >= 1 ==> k * d >= d
    ensures k <= -1 ==> k * d <= -d
  {
    assert k * d == d + (k - 1) * d;
    assert k * d == -d + (k + 1) * d;
  }

  /** Quotient and remainder are determined by the division equation. */
  lemma DivModUnique(n: nat, d: nat, q: nat, r: nat)
    requires n == q * d + r && r < d
    ensures n / d == q && n % d == r
  {
    assert n == (n / d) * d + n % d;
    assert (q - n / d) * d == n % d - r;
    MultipleAtLeast(q - n / d, d);
  }

  /** Nothing is lost when the value has no bits past the `k`-th. */
  lemma LowExact(a: nat, k: nat)
    requires a < Pow2(k)
    ensures Low(a, k) == a
  {
    RaiseZero(k);
    ShrLowUnique(0, a, k);
  }

  /** `a << k` on a 32-bit word. */
  function Shl32(a: nat, k: nat): u32
  {
    ShrLow(Raise(a, k), 32);
    Pow2Values();
    Shl(32, a, k)
  }

  function Not32(a: u32): u32 { 0xFFFF_FFFF - a }

  /** Wrapping 32-bit addition. */
  function Add32(a: nat, b: nat): u32 { (a + b) % 0x1_0000_0000 }

  // -- Gates -------------------------------------------------------------------

  datatype Gate = OrGate | XorGate | AndGate

  predicate Fires(g: Gate, x: bool, y: bool) {
    match g
    case OrGate => x || y
    case XorGate => x != y
    case AndGate => x && y
  }

  /** The bitwise combination of two words, from the least significant bit up. */
  function Combine(g: Gate, a: nat, b: nat): nat
    decreases a + b
  {
    if a == 0 && b == 0 then 0
    else 2 * Combine(g, a / 2, b / 2) + (if Fires(g, a % 2 == 1, b % 2 == 1) then 1 else 0)
  }

  function Or(a: nat, b: nat): nat { Combine(OrGate, a, b) }

  function Xor(a: nat, b: nat): nat { Combine(XorGate, a, b) }

  function And(a: nat, b: nat): nat { Combine(AndGate, a, b) }

  lemma CombineHalves(g: Gate, a: nat, b: nat)
    ensures Combine(g, a, b) / 2 == Combine(g, a / 2, b / 2)
    ensures Combine(g, a, b) % 2 == if Fires(g, a % 2 == 1, b % 2 == 1) then 1 else 0
  {
  }

  /** The lowest bits apart from the rest. */
  lemma CombineHalf(g: Gate, a: nat, b: nat, x: nat, y: nat, u: nat, v: nat)
    requires x < 2 && y < 2 && u == 2 * a + x && v == 2 * b + y
    ensures Combine(g, u, v) == 2 * Combine(g, a, b) + (if Fires(g, x == 1, y == 1) then 1 else 0)
  {
    assert u / 2 == a && v / 2 == b;
  }

  lemma {:induction false} CombineBound(g: Gate, a: nat, b: nat, k: nat)
    requires a < Pow2(k) && b < Pow2(k)
    ensures Combine(g, a, b) < Pow2(k)
  {
    if k > 0 {
      CombineBound(g, a / 2, b / 2, k - 1);
      CombineHalves(g, a, b);
    }
  }

  /** A gate works on the low `k` bits of two words and on the rest independently. */
  lemma {:induction false} CombineParts(g: Gate, a: nat, b: nat, c: nat, d: nat, k: nat, u: nat, v: nat)
    requires b < Pow2(k) && d < Pow2(k) && u == Raise(a, k) + b && v == Raise(c, k) + d
    ensures Combine(g, u, v) == Raise(Combine(g, a, c), k) + Combine(g, b, d)
    decreases k
  {
    if k == 0 {
      assert Combine(g, 0, 0) == 0;
    } else {
      var x, y := Raise(a, k - 1) + b / 2, Raise(c, k - 1) + d / 2;
      CombineParts(g, a, b / 2, c, d / 2, k - 1, x, y);
      CombineHalf(g, x, y, b % 2, d % 2, u, v);
      CombineHalf(g, b / 2, d / 2, b % 2, d % 2, b, d);
      Lowest(Combine(g, a, c), Combine(g, b / 2, d / 2), if Fires(g, b % 2 == 1, d % 2 == 1) then 1 else 0, k);
    }
  }

  lemma Lowest(high: nat, low: nat, bit: nat, k: nat)
    requires k > 0
    ensures 2 * (Raise(high, k - 1) + low) + bit == Raise(high, k) + (2 * low + bit)
  {
  }

  lemma CombineSplit(g: Gate, a: nat, b: nat, c: nat, d: nat, k: nat)
    requires b < Pow2(k) && d < Pow2(k)
    ensures Combine(g, Raise(a, k) + b, Raise(c, k) + d) == Raise(Combine(g, a, c), k) + Combine(g, b, d)
  {
    CombineParts(g, a, b, c, d, k, Raise(a, k) + b, Raise(c, k) + d);
  }

  lemma {:induction false} CombineCommutes(g: Gate, a: nat, b: nat)
    ensures Combine(g, a, b) == Combine(g, b, a)
    decreases a + b
  {
    if a + b > 0 {
      CombineCommutes(g, a / 2, b / 2);
    }
  }

  lemma {:induction false} CombineZero(a: nat)
    ensures Or(a, 0) == a && Or(0, a) == a && Xor(a, 0) == a && Xor(0, a) == a
    ensures And(a, 0) == 0 && And(0, a) == 0
  {
    if a > 0 {
      CombineZero(a / 2);
    }
  }

  /** Words with no overlapping bits: OR is addition. */
  lemma OrDisjoint(a: nat, b: nat, k: nat)
    requires b < Pow2(k)
    ensures Or(Raise(a, k), b) == Raise(a, k) + b
    ensures Or(b, Raise(a, k)) == Raise(a, k) + b
  {
    RaiseZero(k);
    CombineParts(OrGate, a, 0, 0, b, k, Raise(a, k), b);
    CombineZero(a);
    CombineZero(b);
    CombineCommutes(OrGate, Raise(a, k), b);
  }

  /** Masking with `k` ones keeps the low `k` bits. */
  lemma {:induction false} AndMask(a: nat, k: nat)
    ensures And(a, Pow2(k) - 1) == Low(a, k)
  {
    if k > 0 {
      AndMask(a / 2, k - 1);
      CombineHalf(AndGate, a / 2, Pow2(k - 1) - 1, a % 2, 1, a, Pow2(k) - 1);
    } else {
      CombineZero(a);
    }
  }

  /** Masking with `j` ones above `k` zeros clears the low `k` bits. */
  lemma AndHighMask(q: nat, r: nat, j: nat, k: nat)
    requires q < Pow2(j) && r < Pow2(k)
    ensures And(Raise(q, k) + r, Raise(Pow2(j) - 1, k)) == Raise(q, k)
  {
    CombineSplit(AndGate, q, r, Pow2(j) - 1, 0, k);
    CombineZero(r);
    AndMask(q, j);
    LowExact(q, j);
  }

  // -- XOR as addition of GF(2) vectors ------------------------------------------

  lemma {:induction false} XorAssoc(a: nat, b: nat, c: nat)
    ensures Xor(Xor(a, b), c) == Xor(a, Xor(b, c))
    decreases a + b + c
  {
    if a + b + c > 0 {
      XorAssoc(a / 2, b / 2, c / 2);
      CombineHalves(XorGate, a, b);
      CombineHalves(XorGate, b, c);
      CombineHalves(XorGate, Xor(a, b), c);
      CombineHalves(XorGate, a, Xor(b, c));
    }
  }

  lemma {:induction false} XorSelf(a: nat)
    ensures Xor(a, a) == 0
  {
    if a > 0 {
      XorSelf(a / 2);
    }
  }

  lemma XorCancel(a: nat, b: nat)
    ensures Xor(Xor(a, b), b) == a
  {
    XorAssoc(a, b, b);
    XorSelf(b);
    CombineZero(a);
  }

  /** Bit `k` of a word. */
  predicate Bit(a: nat, k: nat) { Shr(a, k) % 2 == 1 }

  lemma {:induction false} CombineBit(g: Gate, a: nat, b: nat, k: nat)
    ensures Bit(Combine(g, a, b), k) == Fires(g, Bit(a, k), Bit(b, k))
    decreases k
  {
    CombineHalves(g, a, b);
    if k > 0 {
      CombineBit(g, a / 2, b / 2, k - 1);
    }
  }

  /** The gates, bit by bit. */
  lemma GateBits(a: nat, b: nat, k: nat)
    ensures Bit(Or(a, b), k) <==> Bit(a, k) || Bit(b, k)
    ensures Bit(Xor(a, b), k) <==> Bit(a, k) != Bit(b, k)
    ensures Bit(And(a, b), k) <==> Bit(a, k) && Bit(b, k)
  {
    CombineBit(OrGate, a, b, k);
    CombineBit(XorGate, a, b, k);
    CombineBit(AndGate, a, b, k);
  }

  // -- Little-endian values ----------------------------------------------------------

  /** The number whose base-256 digits, least significant first, are `s`. */
  function LittleEndian(s: seq<byte>): (v: nat)
  {
    if s == [] then 0 else s[0] + 256 * LittleEndian(s[1..])
  }

  /** The `n` low base-256 digits of `v`. */
  function LittleEndianBytes(v: nat, n: nat): (s: seq<byte>)
    ensures |s| == n
    decreases n, v
  {
    if n == 0 then [] else [v % 256] + LittleEndianBytes(v / 256, n - 1)
  }

  lemma RaiseByte(a: nat, n: nat)
    ensures Raise(a, 8 * (n + 1)) == 256 * Raise(a, 8 * n)
  {
    RaiseTwice(a, 8 * n, 8);
    Raise8(Raise(a, 8 * n));
  }

  lemma {:induction false} LittleEndianBound(s: seq<byte>)
    ensures LittleEndian(s) < Pow2(8 * |s|)
  {
    if s != [] {
      LittleEndianBound(s[1..]);
      RaiseByte(1, |s| - 1);
    }
  }

  lemma {:induction false} LittleEndianAppend(s: seq<byte>, t: seq<byte>)
    ensures LittleEndian(s + t) == LittleEndian(s) + Raise(LittleEndian(t), 8 * |s|)
  {
    if s == [] {
      assert s + t == t;
    } else {
      LittleEndianAppend(s[1..], t);
      assert (s + t)[1..] == s[1..] + t;
      RaiseByte(LittleEndian(t), |s| - 1);
    }
  }

  lemma LittleEndianSnoc(s: seq<byte>, b: byte)
    ensures LittleEndian(s + [b]) == LittleEndian(s) + Raise(b, 8 * |s|)
  {
    LittleEndianAppend(s, [b]);
    assert LittleEndian([b]) == b;
  }

  lemma {:induction false} LittleEndianRoundTrip(s: seq<byte>)
    ensures LittleEndianBytes(LittleEndian(s), |s|) == s
  {
    if s != [] {
      LittleEndianRoundTrip(s[1..]);
      LowestByte(s[0], LittleEndian(s[1..]));
      assert s == [s[0]] + s[1..];
    }
  }

  lemma LowestByte(b: byte, high: nat)
    ensures (b + 256 * high) % 256 == b && (b + 256 * high) / 256 == high
  {
  }

  lemma {:induction false} LittleEndianInverse(v: nat, n: nat)
    requires v < Pow2(8 * n)
    ensures LittleEndian(LittleEndianBytes(v, n)) == v
    decreases n
  {
    if n > 0 {
      RaiseByte(1, n - 1);
      assert v / 256 < Pow2(8 * (n - 1));
      LittleEndianInverse(v / 256, n - 1);
      assert LittleEndianBytes(v, n)[1..] == LittleEndianBytes(v / 256, n - 1);
    }
  }

  // -- Gates on bytes ------------------------------------------------------------------

  function CombineByte(g: Gate, a: byte, b: byte): byte
  {
    Pow2Values();
    CombineBound(g, a, b, 8);
    Combine(g, a, b)
  }

  lemma CombineLowByte(g: Gate, a: byte, high: nat, b: byte, high': nat)
    ensures Combine(g, a + 256 * high, b + 256 * high') == CombineByte(g, a, b) + 256 * Combine(g, high, high')
  {
    Pow2Values();
    Raise8(high);
    Raise8(high');
    Raise8(Combine(g, high, high'));
    CombineSplit(g, high, a, high', b, 8);
  }

  /** A gate on two little-endian numbers of the same length works byte by byte. */
  lemma {:induction false} LittleEndianCombine(g: Gate, a: seq<byte>, b: seq<byte>, c: seq<byte>)
    requires |a| == |b| == |c| && forall i :: 0 <= i < |a| ==> c[i] == CombineByte(g, a[i], b[i])
    ensures LittleEndian(c) == Combine(g, LittleEndian(a), LittleEndian(b))
  {
    if a != [] {
      LittleEndianCombine(g, a[1..], b[1..], c[1..]);
      CombineLowByte(g, a[0], LittleEndian(a[1..]), b[0], LittleEndian(b[1..]));
    } else {
      assert Combine(g, 0, 0) == 0;
    }
  }

  lemma ByteGates(x: byte)
    ensures CombineByte(AndGate, x, 255) == x && CombineByte(AndGate, x, 0) == 0
    ensures CombineByte(OrGate, x, 0) == x && CombineByte(OrGate, 0, x) == x
  {
    Pow2Values();
    AndMask(x, 8);
    LowExact(x, 8);
    CombineZero(x);
  }
}
