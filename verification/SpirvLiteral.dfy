/** Numeric literals as instruction operands (Khronos SPIR-V Specification, section 2.2.1). */
module SpirvLiteral {
  import opened Bits
  import opened Wrappers

  /** A value of one of the number types: its width, and for a float its bits. */
  datatype Number = Unsigned(width: nat, value: nat) | Signed(width: nat, number: int) | Float(width: nat, bits: nat)

  function Limit(width: nat): int {
    if width == 8 then 0x100
    else if width == 16 then 0x1_0000
    else if width == 32 then 0x1_0000_0000
    else if width == 64 then 0x1_0000_0000_0000_0000
    else 0
  }

  predicate InRange(n: Number) {
    match n
    case Unsigned(w, v) => v < Limit(w)
    case Signed(w, v) => -Limit(w) <= 2 * v < Limit(w)
    case Float(w, b) => w >= 32 && b < Limit(w)
  }

  type Literal = n: Number | InRange(n) witness Unsigned(32, 0)

  /** A signed number in two's complement of the width of its type. */
  function Truncate(v: int, width: nat): int { if v < 0 then v + Limit(width) else v }

  /** The bits of a literal in its own width. */
  function BitsOf(l: Literal): (b: nat)
    ensures b < Limit(l.width)
  {
    match l
    case Unsigned(_, v) => v
    case Signed(w, v) => Truncate(v, w)
    case Float(_, b) => b
  }

  function Halves(v: u64): (ws: seq<u32>)
    ensures |ws| == 2
  {
    [v % 0x1_0000_0000, v / 0x1_0000_0000]
  }

  /** One word for up to 32 bits, two for 64, low word first. */
  function ToWords(l: Literal): (ws: seq<u32>)
    ensures |ws| == if l.width == 64 then 2 else 1
  {
    if l.width == 64 then Halves(BitsOf(l)) else [BitsOf(l)]
  }

  // -- Reading literals ------------------------------------------------------------------

  datatype Kind = UnsignedKind | SignedKind | FloatKind

  function KindOf(l: Literal): Kind {
    match l
    case Unsigned(_, _) => UnsignedKind
    case Signed(_, _) => SignedKind
    case Float(_, _) => FloatKind
  }

  function JoinHalves(low: nat, high: nat): nat { low + 0x1_0000_0000 * high }

  function Join(ws: seq<u32>): nat {
    if |ws| == 2 then JoinHalves(ws[0], ws[1]) else if |ws| == 1 then ws[0] else 0
  }

  /** The number of a known type that the words of an operand stand for. */
  function FromWords(kind: Kind, width: nat, ws: seq<u32>): Number {
    var b := Join(ws);
    match kind
    case UnsignedKind => Unsigned(width, b)
    case SignedKind => Signed(width, if 2 * b >= Limit(width) then b - Limit(width) else b)
    case FloatKind => Float(width, b)
  }

  /** Whatever its type, a literal is recovered from its words. */
  lemma LiteralRecovered(l: Literal)
    ensures FromWords(KindOf(l), l.width, ToWords(l)) == l
  {
  }

  /** Up to 32 bits, one word with the value in the width of its type, and zeros above; 64 bits, the low word first. */
  lemma LiteralWords(l: Literal)
    ensures l.Unsigned? && l.width < 64 ==> ToWords(l) == [l.value]
    ensures l.Unsigned? && l.width == 64 ==> ToWords(l) == [l.value % 0x1_0000_0000, l.value / 0x1_0000_0000]
    ensures l.Signed? && l.number >= 0 ==> ToWords(l) == ToWords(Unsigned(l.width, l.number))
    ensures l.Signed? && l.number < 0 && l.width == 8 ==> ToWords(l) == [0x100 + l.number]
    ensures l.Signed? && l.number < 0 && l.width == 16 ==> ToWords(l) == [0x1_0000 + l.number]
    ensures l.Signed? && l.number < 0 && l.width == 32 ==> ToWords(l) == [0x1_0000_0000 + l.number]
    ensures l.Signed? && l.number < 0 && l.width == 64 ==>
      ToWords(l) == ToWords(Unsigned(64, 0x1_0000_0000_0000_0000 + l.number))
    ensures l.Float? ==> ToWords(l) == ToWords(Unsigned(l.width, l.bits))
  {
  }

  /** What the specification asks for in the one word of a narrow literal: signed types are sign-extended. */
  function SpecifiedWord(l: Literal): u32
    requires l.width < 64
  {
    match l
    case Unsigned(_, v) => v
    case Signed(_, v) => Truncate(v, 32)
    case Float(_, b) => b
  }

  /** The emitter zero-extends signed literals below 32 bits, so it meets the specification exactly on those that
      are not negative. */
  lemma NarrowSigned(l: Literal)
    requires l.width < 64
    ensures ToWords(l) == [SpecifiedWord(l)] <==> !(l.Signed? && l.width < 32 && l.number < 0)
  {
  }

  /** The smallest example: -1 as an 8-bit literal. */
  lemma NarrowSignedExample()
    ensures ToWords(Signed(8, -1)) == [0xFF] && SpecifiedWord(Signed(8, -1)) == 0xFFFF_FFFF
  {
  }
}
