/** Lower-case hexadecimal rendering of bytes and its inverse. */
module Hex {
  import opened Wire

  function Digit(n: nat): char
    requires n < 16
  {
    if n < 10 then ('0' as int + n) as char else ('a' as int + n - 10) as char
  }

  function Value(c: char): (n: nat)
    ensures n < 16
  {
    if '0' <= c <= '9' then c as int - '0' as int
    else if 'a' <= c <= 'f' then c as int - 'a' as int + 10
    else 0
  }

  function ToByte(n: nat): bv8
    requires n < 256
  {
    n as bv8
  }

  /** The two digits of a byte. */
  function Pair(x: bv8): (s: string)
    ensures |s| == 2
  {
    [Digit(x as int / 16), Digit(x as int % 16)]
  }

  function Unpair(a: char, c: char): bv8 {
    ToByte(Value(a) * 16 + Value(c))
  }

  /** The rendering of a byte sequence, two digits a byte. */
  function HexOf(b: Bytes): (s: string)
    ensures |s| == 2 * |b|
  {
    if b == [] then "" else HexOf(b[..|b| - 1]) + Pair(b[|b| - 1])
  }

  function FromHex(s: string): (b: Bytes)
    ensures |b| == |s| / 2
  {
    if |s| < 2 then [] else FromHex(s[..|s| - 2]) + [Unpair(s[|s| - 2], s[|s| - 1])]
  }

  lemma DigitRoundTrip(n: nat)
    requires n < 16
    ensures Value(Digit(n)) == n
  {
  }

  lemma ToByteInverse(x: bv8)
    ensures ToByte(x as int) == x
  {
  }

  lemma DigitsOfByte(n: nat)
    requires n < 256
    ensures Value(Digit(n / 16)) * 16 + Value(Digit(n % 16)) == n
  {
    DigitRoundTrip(n / 16);
    DigitRoundTrip(n % 16);
  }

  lemma PairRoundTrip(x: bv8)
    ensures Unpair(Pair(x)[0], Pair(x)[1]) == x
  {
    DigitsOfByte(x as int);
    ToByteInverse(x);
  }

  lemma HexStep(s: string, b: Bytes, x: bv8)
    requires FromHex(s) == b
    ensures FromHex(s + Pair(x)) == b + [x]
  {
    FromHexSnoc(s, Pair(x));
    PairRoundTrip(x);
  }

  lemma {:induction false} HexRoundTrip(b: Bytes)
    ensures FromHex(HexOf(b)) == b
  {
    if b != [] {
      var init, x := b[..|b| - 1], b[|b| - 1];
      HexRoundTrip(init);
      HexStep(HexOf(init), init, x);
      assert init + [x] == b;
    }
  }

  lemma FromHexSnoc(s: string, p: string)
    requires |p| == 2
    ensures FromHex(s + p) == FromHex(s) + [Unpair(p[0], p[1])]
  {
    assert (s + p)[..|s|] == s;
  }

  /** Two lower-case digits a byte, the high one first. */
  lemma HexExample()
    ensures HexOf([0x0f, 0xa9]) == "0fa9"
  {
    assert HexOf([0x0f, 0xa9]) == HexOf([0x0f]) + Pair(0xa9);
    assert HexOf([0x0f]) == HexOf([0x0f][..0]) + Pair(0x0f);
  }

  /** Different byte sequences have different renderings. */
  lemma HexInjective(x: Bytes, y: Bytes)
    requires HexOf(x) == HexOf(y)
    ensures x == y
  {
    HexRoundTrip(x);
    HexRoundTrip(y);
  }
}
