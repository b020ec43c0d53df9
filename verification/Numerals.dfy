/** Unsigned numbers in text. */
module Numerals {
  import opened Bits
  import opened Wrappers

  function DigitValue(c: char): (r: Option<nat>)
    ensures r.Some? ==> r.value < 36
    ensures r.Some? <==> '0' <= c <= '9' || 'a' <= c <= 'z' || 'A' <= c <= 'Z'
  {
    if '0' <= c <= '9' then Some(c as nat - '0' as nat)
    else if 'a' <= c <= 'z' then Some(c as nat - 'a' as nat + 10)
    else if 'A' <= c <= 'Z' then Some(c as nat - 'A' as nat + 10)
    else None
  }

  /** One more digit. */
  function Shifted(high: nat, radix: nat, low: nat): nat { high * radix + low }

  /** The value of a string of digits, most significant first. */
  function Digits(s: string, radix: nat): Option<nat> {
    if s == [] then Some(0)
    else
      match (Digits(s[..|s| - 1], radix), DigitValue(s[|s| - 1]))
      case (Some(high), Some(low)) => if low < radix then Some(Shifted(high, radix, low)) else None
      case _ => None
  }

  /** At least one digit, after at most one plus sign, and a value below the limit of the type. */
  function ParseUnsigned(s: string, radix: nat, limit: nat): (r: Option<nat>)
    ensures r.Some? ==> r.value < limit
  {
    var digits := if s != [] && s[0] == '+' then s[1..] else s;
    var n := Digits(digits, radix);
    if digits != [] && n.Some? && n.value < limit then n else None
  }

  // -- Numbers as they are written ------------------------------------------------------------

  function HexDigit(n: nat): char
    requires n < 16
  {
    "0123456789abcdef"[n]
  }

  lemma HexDigitValue(n: nat)
    requires n < 16
    ensures DigitValue(HexDigit(n)) == Some(n) && HexDigit(n) != '+'
  {
  }

  /** Digits below the radix, most significant first; there may be leading zeros. */
  ghost predicate AreDigits(ds: seq<nat>, radix: nat) { radix <= 16 && forall i :: 0 <= i < |ds| ==> ds[i] < radix }

  function Text(ds: seq<nat>): (s: string)
    requires AreDigits(ds, 16)
    ensures |s| == |ds| && forall i :: 0 <= i < |s| ==> s[i] == HexDigit(ds[i])
  {
    seq(|ds|, i requires 0 <= i < |ds| => HexDigit(ds[i]))
  }

  function Number(ds: seq<nat>, radix: nat): nat {
    if ds == [] then 0 else radix * Number(ds[..|ds| - 1], radix) + ds[|ds| - 1]
  }

  lemma {:induction false} TextDigits(ds: seq<nat>, radix: nat)
    requires AreDigits(ds, radix)
    ensures Digits(Text(ds), radix) == Some(Number(ds, radix))
    decreases |ds|
  {
    if ds != [] {
      TextDigits(ds[..|ds| - 1], radix);
      HexDigitValue(ds[|ds| - 1]);
      assert Text(ds)[..|ds| - 1] == Text(ds[..|ds| - 1]);
    }
  }

  /** Letters are digits in either case. */
  lemma EitherCase(c: char, d: char)
    requires 'a' <= c <= 'z' && d as int - 'A' as int == c as int - 'a' as int
    ensures DigitValue(d) == DigitValue(c)
  {
  }

  /** Text with a character that is no digit of the radix is no number. */
  lemma {:induction false} NoNumber(s: string, radix: nat, i: nat)
    requires i < |s| && (DigitValue(s[i]).None? || DigitValue(s[i]).value >= radix)
    ensures Digits(s, radix) == None
    decreases |s|
  {
    if i < |s| - 1 {
      NoNumber(s[..|s| - 1], radix, i);
    }
  }

  /** Any numeral is parsed to its number, if that is below the limit; a plus sign before it changes nothing. */
  lemma TextParsed(ds: seq<nat>, radix: nat, limit: nat)
    requires ds != [] && AreDigits(ds, radix)
    ensures ParseUnsigned(Text(ds), radix, limit) ==
            if Number(ds, radix) < limit then Some(Number(ds, radix)) else None
    ensures ParseUnsigned(['+'] + Text(ds), radix, limit) == ParseUnsigned(Text(ds), radix, limit)
  {
    TextDigits(ds, radix);
    HexDigitValue(ds[0]);
    assert (['+'] + Text(ds))[1..] == Text(ds);
  }

  lemma TwoDigits(a: char, b: char, radix: nat, x: nat, y: nat)
    requires DigitValue(a) == Some(x) && DigitValue(b) == Some(y) && x < radix && y < radix
    ensures Digits([a, b], radix) == Some(Shifted(x, radix, y))
  {
    assert [a][..0] == [];
    assert Digits([a], radix) == Some(Shifted(0, radix, x));
    assert [a, b][..1] == [a];
  }
}
