/** The fields GF(2^n): polynomials over GF(2) modulo one of degree n, a polynomial being the number
    whose bit i is its coefficient of x^i. */
module GaloisField {
  import opened Bits

  /** The modulus is x^degree plus the polynomial `low`. */
  datatype Field = Field(degree: nat, low: nat)

  /** The field of IEEE Std 1619-2007: modulo x^128 + x^7 + x^2 + x + 1. */
  const GF128 := Field(128, 0x87)

  /** What the arithmetic needs of a modulus: a constant term, and no x^(degree-1) term. */
  predicate Proper(f: Field) { f.degree > 0 && f.low < Half(f) && f.low % 2 == 1 }

  function Half(f: Field): nat
    requires f.degree > 0
  {
    Pow2(f.degree - 1)
  }

  predicate InField(f: Field, v: nat) { v < Pow2(f.degree) }

  function Modulus(f: Field): nat { Pow2(f.degree) + f.low }

  /** Multiplication by x: shift up, and subtract the modulus when its degree is reached. */
  function MulX(f: Field, v: nat): nat {
    if 2 * v < Pow2(f.degree) then 2 * v else Xor(2 * v, Modulus(f))
  }

  /** Multiplication in the field: the sum of x^i * b over the terms x^i of a. */
  function Mul(f: Field, a: nat, b: nat): nat
    decreases a
  {
    if a == 0 then 0 else Xor(Term(a, b), Mul(f, a / 2, MulX(f, b)))
  }

  /** The contribution of a's constant term. */
  function Term(a: nat, b: nat): nat { if a % 2 == 1 then b else 0 }

  lemma GF128Proper()
    ensures Proper(GF128)
  {
    Pow2Values();
    Pow2Monotone(8, 127);
  }

  // -- XOR arithmetic -----------------------------------------------------------------

  lemma XorComm(a: nat, b: nat)
    ensures Xor(a, b) == Xor(b, a)
  {
    CombineCommutes(XorGate, a, b);
  }

  /** Sums may be regrouped: (a + b) + (c + d) is (a + c) + (b + d). */
  lemma XorSwap(a: nat, b: nat, c: nat, d: nat)
    ensures Xor(Xor(a, b), Xor(c, d)) == Xor(Xor(a, c), Xor(b, d))
  {
    XorAssoc(a, b, Xor(c, d));
    XorAssoc(b, c, d);
    XorComm(b, c);
    XorAssoc(c, b, d);
    XorAssoc(a, c, Xor(b, d));
  }

  lemma MoveLast(a: nat, b: nat, c: nat)
    ensures Xor(Xor(a, b), c) == Xor(Xor(a, c), b)
  {
    XorAssoc(a, b, c);
    XorComm(b, c);
    XorAssoc(a, c, b);
  }

  lemma XorDouble(a: nat, b: nat)
    ensures Xor(2 * a, 2 * b) == 2 * Xor(a, b)
  {
    CombineHalf(XorGate, a, b, 0, 0, 2 * a, 2 * b);
  }

  lemma XorBound(a: nat, b: nat, k: nat)
    requires a < Pow2(k) && b < Pow2(k)
    ensures Xor(a, b) < Pow2(k)
  {
    CombineBound(XorGate, a, b, k);
  }

  /** A bit above two words, in the first or in both. */
  lemma XorTopBit(r: nat, s: nat, k: nat)
    requires r < Pow2(k) && s < Pow2(k)
    ensures Xor(r, s) < Pow2(k)
    ensures Xor(Pow2(k) + r, s) == Pow2(k) + Xor(r, s)
    ensures Xor(Pow2(k) + r, Pow2(k) + s) == Xor(r, s)
  {
    RaiseZero(k);
    CombineZero(1);
    XorSelf(1);
    XorBound(r, s, k);
    CombineSplit(XorGate, 1, r, 0, s, k);
    CombineSplit(XorGate, 1, r, 1, s, k);
  }

  // -- Multiplication by x ----------------------------------------------------------------

  lemma MulXLow(f: Field, r: nat)
    requires Proper(f) && r < Half(f)
    ensures MulX(f, r) == 2 * r && 2 * r < Pow2(f.degree)
  {
  }

  lemma HalfDoubles(f: Field)
    requires f.degree > 0
    ensures Pow2(f.degree) == 2 * Half(f)
  {
  }

  lemma MulXCarries(f: Field, r: nat, u: nat)
    requires Proper(f) && u == Pow2(f.degree) + 2 * r
    ensures MulX(f, Half(f) + r) == Xor(u, Modulus(f))
  {
    HalfDoubles(f);
    assert 2 * (Half(f) + r) == u;
  }

  /** Two words with the same bit on top. */
  lemma XorTopBits(u: nat, v: nat, r: nat, s: nat, k: nat)
    requires r < Pow2(k) && s < Pow2(k) && u == Pow2(k) + r && v == Pow2(k) + s
    ensures Xor(u, v) == Xor(r, s) && Xor(r, s) < Pow2(k)
  {
    XorTopBit(r, s, k);
  }

  lemma MulXHigh(f: Field, r: nat)
    requires Proper(f) && r < Half(f)
    ensures MulX(f, Half(f) + r) == Xor(2 * r, f.low) && Xor(2 * r, f.low) < Pow2(f.degree)
  {
    var u := Pow2(f.degree) + 2 * r;
    HalfDoubles(f);
    MulXCarries(f, r, u);
    XorTopBits(u, Modulus(f), 2 * r, f.low, f.degree);
  }

  /** Doubling, and replacing x^degree by the low terms of the modulus. */
  lemma MulXReduces(f: Field, r: nat)
    requires Proper(f) && r < Half(f)
    ensures MulX(f, r) == 2 * r && InField(f, 2 * r) && InField(f, r)
    ensures MulX(f, Half(f) + r) == Xor(2 * r, f.low) && InField(f, Xor(2 * r, f.low))
  {
    MulXLow(f, r);
    MulXHigh(f, r);
  }

  lemma MulXZero(f: Field)
    requires Proper(f)
    ensures MulX(f, 0) == 0
  {
    MulXReduces(f, 0);
  }

  lemma MulXInField(f: Field, v: nat)
    requires Proper(f) && InField(f, v)
    ensures InField(f, MulX(f, v))
  {
    MulXReduces(f, if v < Half(f) then v else v - Half(f));
  }

  lemma XorInField(f: Field, a: nat, b: nat)
    requires InField(f, a) && InField(f, b)
    ensures InField(f, Xor(a, b))
  {
    XorBound(a, b, f.degree);
  }

  /** Multiplication by x is linear. */
  lemma MulXLinear(f: Field, a: nat, b: nat)
    requires Proper(f) && InField(f, a) && InField(f, b)
    ensures MulX(f, Xor(a, b)) == Xor(MulX(f, a), MulX(f, b))
  {
    var h := Half(f);
    if a < h && b < h {
      MulXLinearLow(f, a, b);
    } else if a >= h && b < h {
      MulXLinearMixed(f, a - h, b);
    } else if a < h {
      MulXLinearMixed(f, b - h, a);
      XorComm(a, b);
      XorComm(MulX(f, a), MulX(f, b));
    } else {
      MulXLinearHigh(f, a - h, b - h);
    }
  }

  lemma MulXLinearLow(f: Field, r: nat, s: nat)
    requires Proper(f) && r < Half(f) && s < Half(f)
    ensures MulX(f, Xor(r, s)) == Xor(MulX(f, r), MulX(f, s))
  {
    XorBound(r, s, f.degree - 1);
    MulXReduces(f, r);
    MulXReduces(f, s);
    MulXReduces(f, Xor(r, s));
    XorDouble(r, s);
  }

  lemma MulXLinearMixed(f: Field, r: nat, s: nat)
    requires Proper(f) && r < Half(f) && s < Half(f)
    ensures MulX(f, Xor(Half(f) + r, s)) == Xor(MulX(f, Half(f) + r), MulX(f, s))
  {
    XorTopBit(r, s, f.degree - 1);
    MulXReduces(f, r);
    MulXReduces(f, s);
    MulXReduces(f, Xor(r, s));
    XorDouble(r, s);
    MoveLast(2 * r, f.low, 2 * s);
  }

  lemma MulXLinearHigh(f: Field, r: nat, s: nat)
    requires Proper(f) && r < Half(f) && s < Half(f)
    ensures MulX(f, Xor(Half(f) + r, Half(f) + s)) == Xor(MulX(f, Half(f) + r), MulX(f, Half(f) + s))
  {
    XorTopBit(r, s, f.degree - 1);
    MulXReduces(f, r);
    MulXReduces(f, s);
    MulXReduces(f, Xor(r, s));
    XorDouble(r, s);
    XorSwap(2 * r, f.low, 2 * s, f.low);
    XorSelf(f.low);
    CombineZero(Xor(2 * r, 2 * s));
  }

  // -- Field multiplication -------------------------------------------------------------

  lemma {:induction false} MulInField(f: Field, a: nat, b: nat)
    requires Proper(f) && InField(f, b)
    ensures InField(f, Mul(f, a, b))
    decreases a
  {
    if a > 0 {
      MulXInField(f, b);
      MulInField(f, a / 2, MulX(f, b));
      XorInField(f, Term(a, b), Mul(f, a / 2, MulX(f, b)));
    }
  }

  lemma TermLinear(a: nat, b: nat, c: nat)
    ensures Term(Xor(a, b), c) == Xor(Term(a, c), Term(b, c))
  {
    CombineHalves(XorGate, a, b);
    XorSelf(c);
    CombineZero(c);
  }

  lemma MulUnfold(f: Field, a: nat, b: nat)
    ensures Mul(f, a, b) == Xor(Term(a, b), Mul(f, a / 2, MulX(f, b)))
  {
    assert Xor(0, 0) == 0;
  }

  /** Distributivity in the first factor. */
  lemma {:induction false} MulAddLeft(f: Field, a: nat, b: nat, c: nat)
    ensures Mul(f, Xor(a, b), c) == Xor(Mul(f, a, c), Mul(f, b, c))
    decreases a + b
  {
    if a + b > 0 {
      MulUnfold(f, a, c);
      MulUnfold(f, b, c);
      MulUnfold(f, Xor(a, b), c);
      MulAddLeft(f, a / 2, b / 2, MulX(f, c));
      CombineHalves(XorGate, a, b);
      TermLinear(a, b, c);
      XorSwap(Term(a, c), Term(b, c), Mul(f, a / 2, MulX(f, c)), Mul(f, b / 2, MulX(f, c)));
    } else {
      assert Xor(0, 0) == 0;
    }
  }

  lemma TermMulX(f: Field, a: nat, b: nat)
    requires Proper(f)
    ensures Term(a, MulX(f, b)) == MulX(f, Term(a, b))
  {
    MulXZero(f);
  }

  /** A factor x comes out of the second factor. */
  lemma {:induction false} MulXSecond(f: Field, a: nat, b: nat)
    requires Proper(f) && InField(f, b)
    ensures Mul(f, a, MulX(f, b)) == MulX(f, Mul(f, a, b))
    decreases a
  {
    if a == 0 {
      MulXZero(f);
    } else {
      MulXInField(f, b);
      MulXSecond(f, a / 2, MulX(f, b));
      MulInField(f, a / 2, MulX(f, b));
      TermMulX(f, a, b);
      MulXLinear(f, Term(a, b), Mul(f, a / 2, MulX(f, b)));
    }
  }

  lemma MulTwice(f: Field, a: nat, b: nat)
    ensures Mul(f, 2 * a, b) == Mul(f, a, MulX(f, b))
  {
    MulUnfold(f, 2 * a, b);
    CombineZero(Mul(f, a, MulX(f, b)));
  }

  lemma TermAddRight(a: nat, b: nat, c: nat)
    ensures Term(a, Xor(b, c)) == Xor(Term(a, b), Term(a, c))
  {
    assert Xor(0, 0) == 0;
  }

  /** Distributivity in the second factor. */
  lemma {:induction false} MulAddRight(f: Field, a: nat, b: nat, c: nat)
    requires Proper(f) && InField(f, b) && InField(f, c)
    ensures Mul(f, a, Xor(b, c)) == Xor(Mul(f, a, b), Mul(f, a, c))
    decreases a
  {
    if a == 0 {
      assert Xor(0, 0) == 0;
    } else {
      MulXInField(f, b);
      MulXInField(f, c);
      MulXLinear(f, b, c);
      MulAddRight(f, a / 2, MulX(f, b), MulX(f, c));
      TermAddRight(a, b, c);
      XorSwap(Term(a, b), Term(a, c), Mul(f, a / 2, MulX(f, b)), Mul(f, a / 2, MulX(f, c)));
    }
  }

  /** Multiplying a power of x, within the degree, is a shift. */
  lemma {:induction false} MulPower(f: Field, a: nat, j: nat)
    requires Proper(f) && j < f.degree && InField(f, Raise(a, j))
    ensures Mul(f, a, Pow2(j)) == Raise(a, j)
    decreases a
  {
    if a == 0 {
      RaiseZero(j);
    } else if a == 1 {
      assert Mul(f, 0, MulX(f, Pow2(j))) == 0;
      CombineZero(Pow2(j));
    } else {
      RaiseHalves(a, j);
      MulXOfPower(f, a, j);
      MulPower(f, a / 2, j + 1);
      XorLowestBit(a, j);
    }
  }

  lemma RaiseHalves(a: nat, j: nat)
    ensures Raise(a, j) == Raise(a / 2, j + 1) + Raise(a % 2, j)
  {
    RaiseAdd(2 * (a / 2), a % 2, j);
    RaiseTwice(a / 2, 1, j);
    assert Raise(a / 2, 1) == 2 * (a / 2);
  }

  lemma MulXOfPower(f: Field, a: nat, j: nat)
    requires Proper(f) && j < f.degree && a > 1 && InField(f, Raise(a, j))
    ensures MulX(f, Pow2(j)) == Pow2(j + 1) && j + 1 < f.degree
  {
    RaiseMonotone(2, a, j);
    RaiseTwice(1, 1, j);
    assert Raise(1, 1) == 2;
    assert Raise(2, j) == Pow2(j + 1);
  }

  lemma XorDisjoint(a: nat, b: nat, k: nat)
    requires b < Pow2(k)
    ensures Xor(b, Raise(a, k)) == Raise(a, k) + b
  {
    RaiseZero(k);
    CombineSplit(XorGate, 0, b, a, 0, k);
    CombineZero(a);
    CombineZero(b);
  }

  /** Shifted higher bits, with or without a bit under them: XOR is addition. */
  lemma XorLowestBit(a: nat, j: nat)
    ensures Xor(Term(a, Pow2(j)), Raise(a / 2, j + 1)) == Raise(a / 2, j + 1) + Raise(a % 2, j)
  {
    RaiseZero(j);
    assert Pow2(j + 1) == 2 * Pow2(j);
    XorDisjoint(a / 2, Term(a, Pow2(j)), j + 1);
  }

  // -- The modulus is zero in the field ---------------------------------------------------

  lemma ModulusParts(f: Field)
    requires Proper(f)
    ensures Modulus(f) == Xor(Pow2(f.degree), f.low) && InField(f, f.low) && InField(f, Half(f))
    ensures Pow2(f.degree) == 2 * Half(f)
  {
    XorTopBit(0, f.low, f.degree);
    CombineZero(f.low);
  }

  lemma OneInField(f: Field)
    requires Proper(f)
    ensures InField(f, 1) && Pow2(0) == 1
  {
    ModulusParts(f);
  }

  lemma MulOne(f: Field, a: nat)
    requires Proper(f) && InField(f, a)
    ensures Mul(f, a, 1) == a
  {
    OneInField(f);
    MulPower(f, a, 0);
  }

  lemma ModulusTimesOne(f: Field)
    requires Proper(f)
    ensures Mul(f, Modulus(f), 1) == 0
  {
    ModulusParts(f);
    OneInField(f);
    MulAddLeft(f, 2 * Half(f), f.low, 1);
    MulTwice(f, Half(f), 1);
    MulXSecond(f, Half(f), 1);
    MulOne(f, Half(f));
    MulOne(f, f.low);
    MulXReduces(f, 0);
    CombineZero(f.low);
    XorSelf(f.low);
  }

  lemma {:induction false} MulZero(f: Field, a: nat)
    requires Proper(f)
    ensures Mul(f, a, 0) == 0
    decreases a
  {
    if a > 0 {
      MulXZero(f);
      MulZero(f, a / 2);
      assert Xor(0, 0) == 0;
    }
  }

  /** The modulus times any element is zero. */
  lemma {:induction false} ModulusVanishes(f: Field, b: nat)
    requires Proper(f) && InField(f, b)
    ensures Mul(f, Modulus(f), b) == 0
    decreases b
  {
    if b == 0 {
      MulZero(f, Modulus(f));
    } else if b == 1 {
      ModulusTimesOne(f);
    } else {
      ModulusParts(f);
      MulXReduces(f, b / 2);
      ModulusVanishes(f, b / 2);
      ModulusVanishes(f, b % 2);
      LowestBit(b);
      MulAddRight(f, Modulus(f), 2 * (b / 2), b % 2);
      MulXSecond(f, Modulus(f), b / 2);
      MulXZero(f);
      assert Xor(0, 0) == 0;
    }
  }

  lemma LowestBit(b: nat)
    ensures Xor(2 * (b / 2), b % 2) == b
  {
    CombineHalf(XorGate, b / 2, 0, 0, b % 2, 2 * (b / 2), b % 2);
    CombineZero(b / 2);
  }

  /** A factor x comes out of the first factor too: reducing it is harmless. */
  lemma MulXFirst(f: Field, a: nat, b: nat)
    requires Proper(f) && InField(f, a) && InField(f, b)
    ensures Mul(f, MulX(f, a), b) == MulX(f, Mul(f, a, b))
  {
    MulTwice(f, a, b);
    MulXSecond(f, a, b);
    if 2 * a >= Pow2(f.degree) {
      MulAddLeft(f, 2 * a, Modulus(f), b);
      ModulusVanishes(f, b);
      CombineZero(Mul(f, 2 * a, b));
    }
  }

  // -- Powers of alpha ----------------------------------------------------------------------

  /** The primitive element alpha is x. */
  const ALPHA := 2

  function AlphaPower(f: Field, j: nat): nat
  {
    if j == 0 then 1 else Mul(f, ALPHA, AlphaPower(f, j - 1))
  }

  lemma MulAlpha(f: Field, b: nat)
    ensures Mul(f, ALPHA, b) == MulX(f, b)
  {
    MulTwice(f, 1, b);
    MulUnfold(f, 1, MulX(f, b));
    CombineZero(MulX(f, b));
  }

  lemma {:induction false} AlphaPowerInField(f: Field, j: nat)
    requires Proper(f)
    ensures InField(f, AlphaPower(f, j))
    decreases j
  {
    if j == 0 {
      OneInField(f);
    } else {
      AlphaPowerInField(f, j - 1);
      MulInField(f, ALPHA, AlphaPower(f, j - 1));
    }
  }

  /** The next power of alpha times t is x times the last one: a tweak may be advanced by doubling. */
  lemma AlphaAdvances(f: Field, j: nat, t: nat)
    requires Proper(f) && InField(f, t)
    ensures Mul(f, AlphaPower(f, j + 1), t) == MulX(f, Mul(f, AlphaPower(f, j), t))
  {
    AlphaPowerInField(f, j);
    MulAlpha(f, AlphaPower(f, j));
    MulXFirst(f, AlphaPower(f, j), t);
  }

  // -- Division by x --------------------------------------------------------------------------

  function DivX(f: Field, v: nat): nat {
    if v % 2 == 0 then v / 2 else Xor(v, Modulus(f)) / 2
  }

  /** Multiplication by x is a bijection on the field, with division by x as its inverse. */
  lemma MulXBijective(f: Field, v: nat)
    requires Proper(f) && InField(f, v)
    ensures DivX(f, MulX(f, v)) == v
    ensures InField(f, DivX(f, v)) && MulX(f, DivX(f, v)) == v
  {
    DivXOfMulX(f, v);
    MulXOfDivX(f, v);
  }

  lemma DivXOfMulX(f: Field, v: nat)
    requires Proper(f) && InField(f, v)
    ensures DivX(f, MulX(f, v)) == v
  {
    ModulusParts(f);
    CombineHalves(XorGate, 2 * v, Modulus(f));
    XorCancel(2 * v, Modulus(f));
  }

  lemma MulXOfDivX(f: Field, v: nat)
    requires Proper(f) && InField(f, v)
    ensures InField(f, DivX(f, v)) && MulX(f, DivX(f, v)) == v
  {
    ModulusParts(f);
    if v % 2 == 1 {
      CombineHalves(XorGate, v, Modulus(f));
      XorCancel(v, Modulus(f));
      XorComm(v, Modulus(f));
      XorTopBit(f.low, v, f.degree);
    }
  }
}
