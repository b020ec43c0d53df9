/** Fields of an instruction word, whole or split over several bit ranges. */
module Slices {
  import opened Bits

  /** Bits `low` to `low + width - 1` of a word. */
  function BitField(w: nat, low: nat, width: nat): (r: nat)
    ensures r < Pow2(width)
  {
    ShrLow(Shr(w, low), width);
    Low(Shr(w, low), width)
  }

  /** As arithmetic: drop the bits below, and keep as many as the field has. */
  lemma BitFieldIsDivision(w: nat, low: nat, width: nat)
    ensures BitField(w, low, width) == w / Pow2(low) % Pow2(width)
  {
    ShrIsDivision(w, low);
    ShrIsDivision(Shr(w, low), width);
  }

  /** Bits `start` to `end`, both included. */
  datatype Bounds = Bounds(start: nat, end: nat)

  type Slice = s: Bounds | s.start <= s.end witness Bounds(0, 0)

  function Width(s: Slice): (w: nat)
    ensures w >= 1
  {
    s.end - s.start + 1
  }

  function Extract(w: nat, s: Slice): (r: nat)
    ensures r < Pow2(Width(s))
  {
    BitField(w, s.start, Width(s))
  }

  /** A slice is a number: the bits from its first to its last, both included. */
  lemma ExtractIsDivision(w: nat, s: Slice)
    ensures Extract(w, s) == w / Pow2(s.start) % Pow2(s.end - s.start + 1)
  {
    BitFieldIsDivision(w, s.start, s.end - s.start + 1);
  }

  function TotalWidth(bits: seq<Slice>): nat {
    if bits == [] then 0 else TotalWidth(bits[..|bits| - 1]) + Width(bits[|bits| - 1])
  }

  /** The slices of a word put together, the first one most significant. */
  function Merged(w: nat, bits: seq<Slice>): nat {
    if bits == [] then 0
    else
      var last := bits[|bits| - 1];
      Raise(Merged(w, bits[..|bits| - 1]), Width(last)) + Extract(w, last)
  }

  /** A split field of `n` bits in all is an `n`-bit number. */
  lemma {:induction false} MergedBound(w: nat, bits: seq<Slice>)
    ensures Merged(w, bits) < Pow2(TotalWidth(bits))
  {
    if bits != [] {
      var last := bits[|bits| - 1];
      var init := bits[..|bits| - 1];
      MergedBound(w, init);
      RaiseBound(Merged(w, init), Pow2(TotalWidth(init)), Extract(w, last), Width(last));
      RaiseTwice(1, TotalWidth(init), Width(last));
    }
  }

  lemma MergedSnoc(w: nat, bits: seq<Slice>, s: Slice)
    ensures Merged(w, bits + [s]) == Raise(Merged(w, bits), Width(s)) + Extract(w, s)
    ensures TotalWidth(bits + [s]) == TotalWidth(bits) + Width(s)
  {
    assert (bits + [s])[..|bits|] == bits;
  }

  // -- Writing a field ---------------------------------------------------------------------

  predicate Apart(s: Slice, t: Slice) { s.end < t.start || t.end < s.start }

  ghost predicate Disjoint(bits: seq<Slice>) { forall i, j :: 0 <= i < j < |bits| ==> Apart(bits[i], bits[j]) }

  /** The word with a slice replaced by the low bits of `f`. */
  function Put(w: nat, s: Slice, f: nat): nat {
    Raise(Raise(Shr(w, s.end + 1), Width(s)) + Low(f, Width(s)), s.start) + Low(w, s.start)
  }

  lemma {:induction false} ShrTwice(a: nat, j: nat, k: nat)
    ensures Shr(Shr(a, j), k) == Shr(a, j + k)
    decreases j
  {
    if j > 0 {
      ShrTwice(a / 2, j - 1, k);
    }
  }

  lemma {:induction false} LowRaised(q: nat, r: nat, j: nat, k: nat)
    requires k <= j
    ensures Low(Raise(q, j) + r, k) == Low(r, k)
    decreases k
  {
    if k > 0 {
      assert (Raise(q, j) + r) / 2 == Raise(q, j - 1) + r / 2;
      LowRaised(q, r / 2, j - 1, k - 1);
    }
  }

  lemma {:induction false} ShrRaised(q: nat, r: nat, j: nat, k: nat)
    requires k <= j
    ensures Shr(Raise(q, j) + r, k) == Raise(q, j - k) + Shr(r, k)
    decreases k
  {
    if k > 0 {
      assert (Raise(q, j) + r) / 2 == Raise(q, j - 1) + r / 2;
      ShrRaised(q, r / 2, j - 1, k - 1);
    }
  }

  /** The bits of a word below `m` decide its slices below `m`. */
  lemma FieldBelow(w: nat, v: nat, m: nat, s: Slice)
    requires Low(w, m) == Low(v, m) && s.end < m
    ensures Extract(w, s) == Extract(v, s)
  {
    FieldOfLow(w, m, s);
    FieldOfLow(v, m, s);
  }

  lemma FieldOfLow(w: nat, m: nat, s: Slice)
    requires s.end < m
    ensures Extract(w, s) == Extract(Low(w, m), s)
  {
    ShrLow(w, m);
    ShrRaised(Shr(w, m), Low(w, m), m, s.start);
    LowRaised(Shr(w, m), Shr(Low(w, m), s.start), m - s.start, Width(s));
  }

  /** The bits of a word from `m` up decide its slices from `m` up. */
  lemma FieldAbove(w: nat, v: nat, m: nat, s: Slice)
    requires Shr(w, m) == Shr(v, m) && m <= s.start
    ensures Extract(w, s) == Extract(v, s)
  {
    ShrTwice(w, m, s.start - m);
    ShrTwice(v, m, s.start - m);
  }

  lemma PutParts(w: nat, s: Slice, f: nat)
    ensures Shr(Put(w, s, f), s.end + 1) == Shr(w, s.end + 1)
    ensures Low(Put(w, s, f), s.start) == Low(w, s.start)
    ensures Extract(Put(w, s, f), s) == Low(f, Width(s))
  {
    var high := Shr(w, s.end + 1);
    ShrLow(f, Width(s));
    ShrLow(w, s.start);
    ShrLowUnique(high, Low(f, Width(s)), Width(s));
    ShrLowUnique(Raise(high, Width(s)) + Low(f, Width(s)), Low(w, s.start), s.start);
    ShrTwice(Put(w, s, f), s.start, Width(s));
  }

  /** What is written is read back, and no slice apart from it is touched. */
  lemma PutExtract(w: nat, s: Slice, f: nat, t: Slice)
    ensures Extract(Put(w, s, f), s) == Low(f, Width(s))
    ensures Apart(s, t) ==> Extract(Put(w, s, f), t) == Extract(w, t)
  {
    PutParts(w, s, f);
    if s.end < t.start {
      FieldAbove(Put(w, s, f), w, s.end + 1, t);
    } else if t.end < s.start {
      FieldBelow(Put(w, s, f), w, s.start, t);
    }
  }

  /** A split field reads nothing but its own slices. */
  lemma {:induction false} MergedIgnores(w: nat, bits: seq<Slice>, t: Slice, f: nat)
    requires forall i :: 0 <= i < |bits| ==> Apart(t, bits[i])
    ensures Merged(Put(w, t, f), bits) == Merged(w, bits)
  {
    if bits != [] {
      MergedIgnores(w, bits[..|bits| - 1], t, f);
      PutExtract(w, t, f, bits[|bits| - 1]);
    }
  }

  /** The word with the digits of `v` spread over the slices, the last slice taking the lowest ones. */
  function Deposit(w: nat, bits: seq<Slice>, v: nat): nat
    decreases |bits|
  {
    if bits == [] then w
    else
      var last := bits[|bits| - 1];
      Deposit(Put(w, last, v), bits[..|bits| - 1], Shr(v, Width(last)))
  }

  lemma {:induction false} DepositKeeps(w: nat, bits: seq<Slice>, v: nat, t: Slice)
    requires forall i :: 0 <= i < |bits| ==> Apart(bits[i], t)
    ensures Extract(Deposit(w, bits, v), t) == Extract(w, t)
    decreases |bits|
  {
    if bits != [] {
      var last := bits[|bits| - 1];
      DepositKeeps(Put(w, last, v), bits[..|bits| - 1], Shr(v, Width(last)), t);
      PutExtract(w, last, v, t);
    }
  }

  /** Whatever is deposited in disjoint slices is what the split field reads. */
  lemma {:induction false} MergedDeposit(w: nat, bits: seq<Slice>, v: nat)
    requires Disjoint(bits) && v < Pow2(TotalWidth(bits))
    ensures Merged(Deposit(w, bits, v), bits) == v
    decreases |bits|
  {
    if bits != [] {
      var n := |bits| - 1;
      var last := bits[n];
      var init := bits[..n];
      var high := Shr(v, Width(last));
      ShrLow(v, Width(last));
      HighBound(v, TotalWidth(init), Width(last));
      assert Disjoint(init);
      MergedDeposit(Put(w, last, v), init, high);
      DepositKeeps(Put(w, last, v), init, high, last);
      PutExtract(w, last, v, last);
    }
  }

  lemma HighBound(v: nat, j: nat, k: nat)
    requires v < Pow2(j + k)
    ensures Shr(v, k) < Pow2(j)
  {
    ShrLow(v, k);
    RaiseTwice(1, j, k);
    if Shr(v, k) >= Pow2(j) {
      RaiseMonotone(Pow2(j), Shr(v, k), k);
    }
  }
}
