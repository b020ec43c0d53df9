/** Literal strings of a SPIR-V module (Khronos SPIR-V Specification, section 2.2.1). */
module SpirvText {
  import opened Bits
  import opened Wrappers

  /** Up to four bytes in one word, first byte lowest. */
  function PackWord(s: seq<byte>): u32
    requires |s| <= 4
  {
    PackBound(s);
    LittleEndian(s)
  }

  /** Four bytes a word; the last word always holds a terminating zero byte. */
  function EncodeString(s: seq<byte>): (ws: seq<u32>)
    ensures |ws| == |s| / 4 + 1
  {
    if |s| < 4 then [PackWord(s)]
    else [PackWord(s[..4])] + EncodeString(s[4..])
  }

  lemma PackBound(s: seq<byte>)
    requires |s| <= 4
    ensures LittleEndian(s) < 0x1_0000_0000
  {
    LittleEndianBound(s);
    Pow2Monotone(8 * |s|, 32);
    Pow2Values();
  }

  /** The bytes before the first zero. */
  function UntilZero(s: seq<byte>): (r: seq<byte>)
    ensures 0 !in r && |r| <= |s|
  {
    if s == [] || s[0] == 0 then [] else [s[0]] + UntilZero(s[1..])
  }

  /** What a consumer of the module does: read words up to the one with a zero byte. */
  function DecodeString(ws: seq<u32>): (r: Option<(seq<byte>, seq<u32>)>)
    ensures r.Some? ==> 0 !in r.value.0
  {
    if ws == [] then None
    else
      var bytes := LittleEndianBytes(ws[0], 4);
      if 0 in bytes then Some((UntilZero(bytes), ws[1..]))
      else
        match DecodeString(ws[1..])
        case None => None
        case Some(p) => Some((bytes + p.0, p.1))
  }

  function Zeros(n: nat): (s: seq<byte>)
    ensures |s| == n
  {
    seq(n, _ => 0)
  }

  lemma {:induction false} ZerosValue(n: nat)
    ensures LittleEndian(Zeros(n)) == 0
  {
    if n > 0 {
      ZerosValue(n - 1);
      assert Zeros(n)[1..] == Zeros(n - 1);
    }
  }

  lemma ValuePads(s: seq<byte>, n: nat)
    ensures LittleEndian(s + Zeros(n)) == LittleEndian(s)
  {
    ZerosValue(n);
    LittleEndianAppend(s, Zeros(n));
    RaiseZero(8 * |s|);
  }

  /** A short group of bytes is padded with zeros. */
  lemma PackPads(s: seq<byte>, n: nat)
    requires |s| <= n
    ensures LittleEndianBytes(LittleEndian(s), n) == s + Zeros(n - |s|)
  {
    ValuePads(s, n - |s|);
    LittleEndianRoundTrip(s + Zeros(n - |s|));
  }

  lemma FirstGroup(s: seq<byte>, j: nat)
    requires j < 4
    ensures LittleEndianBytes(EncodeString(s)[0], 4)[j] == if j < |s| then s[j] else 0
  {
    PackPads(if |s| < 4 then s else s[..4], 4);
  }

  /** Byte `4 * w + j` of the string is byte `j`, from the lowest, of word `w`; the bytes left over are zero. */
  lemma {:induction false} StringLayout(s: seq<byte>, w: nat, j: nat)
    requires w <= |s| / 4 && j < 4
    ensures LittleEndianBytes(EncodeString(s)[w], 4)[j] == if 4 * w + j < |s| then s[4 * w + j] else 0
    decreases w
  {
    if w == 0 {
      FirstGroup(s, j);
    } else {
      StringLayout(s[4..], w - 1, j);
    }
  }

  lemma {:induction false} UntilZeroStops(s: seq<byte>, t: seq<byte>)
    requires 0 !in s && t != [] && t[0] == 0
    ensures UntilZero(s + t) == s
  {
    if s == [] {
      assert s + t == t;
    } else {
      UntilZeroStops(s[1..], t);
      assert (s + t)[1..] == s[1..] + t;
    }
  }

  /** String encoding is self-delimiting: a reader gets back the string and exactly the words after
      it, if and only if the string has no NUL byte. */
  lemma StringRoundTrip(s: seq<byte>, suffix: seq<u32>)
    ensures DecodeString(EncodeString(s) + suffix) == Some((s, suffix)) <==> 0 !in s
  {
    if 0 !in s {
      StringRoundTripNoNul(s, suffix);
    }
  }

  lemma {:induction false} StringRoundTripNoNul(s: seq<byte>, suffix: seq<u32>)
    requires 0 !in s
    ensures DecodeString(EncodeString(s) + suffix) == Some((s, suffix))
  {
    var ws := EncodeString(s) + suffix;
    if |s| < 4 {
      PackPads(s, 4);
      assert (s + Zeros(4 - |s|))[|s|] == 0;
      UntilZeroStops(s, Zeros(4 - |s|));
      assert ws[1..] == suffix;
    } else {
      PackPads(s[..4], 4);
      assert s[..4] + Zeros(0) == s[..4];
      StringRoundTripNoNul(s[4..], suffix);
      assert ws[1..] == EncodeString(s[4..]) + suffix;
      assert s[..4] + s[4..] == s;
    }
  }

  /** Adding a byte to a word whose higher bytes are still empty. */
  lemma OrByte(group: seq<byte>, b: byte)
    requires |group| < 4
    ensures Or(LittleEndian(group), Shl(32, b, 8 * |group|)) == LittleEndian(group + [b])
  {
    LittleEndianBound(group);
    LittleEndianSnoc(group, b);
    PackBound(group + [b]);
    Pow2Values();
    LowExact(Raise(b, 8 * |group|), 32);
    OrDisjoint(b, LittleEndian(group), 8 * |group|);
  }

  /** One round of the byte loop: the byte lands on top of the group gathered so far. */
  lemma OrNextByte(s: seq<byte>, k: nat, i: nat, word: u32)
    requires k <= i < |s| && i < k + 4 && word == PackWord(s[k..i])
    ensures Or(word, Shl(32, s[i], 8 * (i - k))) == PackWord(s[k..i + 1])
  {
    OrByte(s[k..i], s[i]);
    assert s[k..i] + [s[i]] == s[k..i + 1];
  }

  lemma FlushGroup(goal: seq<u32>, out: seq<u32>, s: seq<byte>, group: seq<byte>)
    requires |group| == 4 && group <= s && out + EncodeString(s) == goal
    ensures (out + [PackWord(group)]) + EncodeString(s[4..]) == goal
  {
    assert s[..4] == group;
  }

  lemma NextInGroup(i: nat)
    ensures (i + 1) % 4 == if i % 4 == 3 then 0 else i % 4 + 1
  {
  }

  /** Appends the encoding of `s` to `buf`, one byte at a time. */
  method AppendString(buf: seq<u32>, s: seq<byte>) returns (out: seq<u32>)
    ensures out == buf + EncodeString(s)
  {
    ghost var goal := buf + EncodeString(s);
    out := buf;
    var word: u32 := 0;
    ghost var k := 0;
    assert s[0..] == s;
    for i := 0 to |s|
      invariant k <= i && i % 4 == i - k
      invariant word == PackWord(s[k..i])
      invariant out + EncodeString(s[k..]) == goal
    {
      NextInGroup(i);
      OrNextByte(s, k, i, word);
      word := Or(word, Shl(32, s[i], 8 * (i % 4)));
      if i % 4 == 3 {
        FlushGroup(goal, out, s[k..], s[k..i + 1]);
        out := out + [word];
        word := 0;
        k := i + 1;
        assert s[k..k] == [];
      }
    }
    assert s[k..|s|] == s[k..];
    out := out + [word];
  }
}
