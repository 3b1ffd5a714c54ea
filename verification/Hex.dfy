/** Hexadecimal keys: "%X" formatting and its decoder, over bytes. */
module Hex {
  import opened GoTypes

  /** The upper-case digit of a nibble, as an ASCII byte. */
  function Digit(n: byte): byte
    requires n < 16
  {
    if n < 10 then 0x30 + n else 0x37 + n
  }

  /** The nibble of a digit in either case. */
  function Nibble(c: byte): Option<byte> {
    if 0x30 <= c <= 0x39 then Some(c - 0x30)
    else if 0x41 <= c <= 0x46 then Some(c - 0x37)
    else if 0x61 <= c <= 0x66 then Some(c - 0x57)
    else None
  }

  function Pack(hi: byte, lo: byte): byte {
    (hi << 4) | lo
  }

  function Pair(b: byte): Bytes {
    [Digit(b >> 4), Digit(b & 0xF)]
  }

  function BytesToHexstr(b: Bytes): Bytes {
    if b == [] then []
    else Pair(b[0]) + BytesToHexstr(b[1..])
  }

  function Decode(s: Bytes): Option<Bytes> {
    if s == [] then Some([])
    else if |s| == 1 then None
    else
      match (Nibble(s[0]), Nibble(s[1]), Decode(s[2..]))
      case (Some(hi), Some(lo), Some(rest)) => Some([Pack(hi, lo)] + rest)
      case _ => None
  }

  /** The decoder's error is dropped: a malformed string decodes to the empty slice. */
  function HexstrToBytes(s: Bytes): Bytes {
    match Decode(s)
    case Some(b) => b
    case None => []
  }

  lemma NibbleOfDigit(n: byte)
    requires n < 16
    ensures Nibble(Digit(n)) == Some(n)
  {
  }

  lemma NibblesOfByte(x: byte)
    ensures (x >> 4) < 16 && (x & 0xF) < 16 && Pack(x >> 4, x & 0xF) == x
  {
  }

  /** The two digits of a byte decode as that byte, in front of what the rest decodes as. */
  lemma DecodePair(x: byte, rest: Bytes)
    requires Decode(rest).Some?
    ensures |Pair(x)| == 2 && Decode(Pair(x) + rest) == Some([x] + Decode(rest).value)
  {
    hide Digit, Nibble, Pack;
    NibblesOfByte(x);
    NibbleOfDigit(x >> 4);
    NibbleOfDigit(x & 0xF);
    assert (Pair(x) + rest)[2..] == rest;
  }

  lemma {:induction false} HexRoundTrip(b: Bytes)
    ensures HexstrToBytes(BytesToHexstr(b)) == b
    ensures Decode(BytesToHexstr(b)) == Some(b)
    ensures |BytesToHexstr(b)| == 2 * |b|
  {
    if b != [] {
      HexRoundTrip(b[1..]);
      hide Pair, Decode;
      DecodePair(b[0], BytesToHexstr(b[1..]));
      assert [b[0]] + b[1..] == b;
    }
  }

  /** "0123456789ABCDEF". */
  const DIGITS: Bytes :=
    [0x30, 0x31, 0x32, 0x33, 0x34, 0x35, 0x36, 0x37, 0x38, 0x39, 0x41, 0x42, 0x43, 0x44, 0x45, 0x46]

  function High(x: byte): byte {
    DIGITS[x as int / 16]
  }

  function Low(x: byte): byte {
    DIGITS[x as int % 16]
  }

  /** Every byte is written as the upper-case digit of its high half, and then that of its low half. */
  lemma {:induction false} HexDigitsAt(b: Bytes, i: nat)
    requires i < |b|
    ensures |BytesToHexstr(b)| == 2 * |b|
    ensures BytesToHexstr(b)[2 * i] == High(b[i]) && BytesToHexstr(b)[2 * i + 1] == Low(b[i])
  {
    hide Pair, High, Low;
    PairDigits(b[0]);
    assert |BytesToHexstr(b[1..])| == 2 * |b[1..]| by {
      HexRoundTrip(b[1..]);
    }
    if i > 0 {
      HexDigitsAt(b[1..], i - 1);
    }
  }

  lemma PairDigits(x: byte)
    ensures Pair(x) == [High(x), Low(x)]
  {
    HalvesOfByte(x);
    DigitIs(x >> 4);
    DigitIs(x & 0xF);
    hide Digit;
  }

  lemma HalvesOfByte(x: byte)
    ensures (x >> 4) < 16 && (x & 0xF) < 16
    ensures (x >> 4) as int == x as int / 16 && (x & 0xF) as int == x as int % 16
  {
  }

  lemma DigitIs(n: byte)
    requires n < 16
    ensures Digit(n) == DIGITS[n as int]
  {
  }

  /** Two byte strings have the same hex form only if they are the same. */
  lemma HexInjective(a: Bytes, b: Bytes)
    requires BytesToHexstr(a) == BytesToHexstr(b)
    ensures a == b
  {
    HexRoundTrip(a);
    HexRoundTrip(b);
  }

  /** '0' to '9', 'A' to 'F' or 'a' to 'f'. */
  predicate IsHexDigit(c: byte) {
    0x30 <= c <= 0x39 || 0x41 <= c <= 0x46 || 0x61 <= c <= 0x66
  }

  predicate WellFormed(s: Bytes) {
    |s| % 2 == 0 && forall i :: 0 <= i < |s| ==> IsHexDigit(s[i])
  }

  function Upper(c: byte): byte {
    if 0x61 <= c <= 0x66 then c - 0x20 else c
  }

  function UpperCase(s: Bytes): Bytes {
    seq(|s|, i requires 0 <= i < |s| => Upper(s[i]))
  }

  /** Digits of either case decode alike. */
  lemma {:induction false} DecodeIgnoresCase(s: Bytes)
    ensures Decode(UpperCase(s)) == Decode(s)
    decreases |s|
  {
    if |s| >= 2 {
      UpperNibble(s[0]);
      UpperNibble(s[1]);
      DecodeIgnoresCase(s[2..]);
      assert UpperCase(s)[2..] == UpperCase(s[2..]);
      hide Nibble, Upper, Pack;
    }
  }

  lemma UpperNibble(c: byte)
    ensures Nibble(Upper(c)) == Nibble(c)
  {
  }

  lemma WellFormedPair(s: Bytes)
    requires |s| >= 2
    ensures WellFormed(s) <==> IsHexDigit(s[0]) && IsHexDigit(s[1]) && WellFormed(s[2..])
  {
  }

  /** Decoding succeeds exactly on even-length strings of hex digits. */
  lemma {:induction false} DecodeExactly(s: Bytes)
    ensures Decode(s).Some? <==> WellFormed(s)
    ensures !WellFormed(s) ==> HexstrToBytes(s) == []
    decreases |s|
  {
    if |s| >= 2 {
      WellFormedPair(s);
      DecodeExactly(s[2..]);
    }
  }
}
