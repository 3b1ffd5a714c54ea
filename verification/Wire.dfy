/** Length-prefixed byte slices over a varint codec, which is a parameter. */
module Wire {
  import opened GoTypes

  datatype Varints = Varints(put: int -> Bytes, get: Bytes -> Option<(int, nat)>)

  const INT_MAX := 0x7FFF_FFFF_FFFF_FFFF

  /** A value of Go's int, of 64 bits. */
  predicate IsInt(i: int) {
    -INT_MAX - 1 <= i <= INT_MAX
  }

  /** A varint reads back from the front of any buffer that starts with it, and one of a Go int takes
      less than 100 bytes. */
  ghost predicate Lawful(w: Varints) {
    && (forall i: int, tail: Bytes :: w.get(w.put(i) + tail) == Some((i, |w.put(i)|)))
    && (forall i: int :: IsInt(i) ==> |w.put(i)| < 100)
  }

  /** How a byte slice is written: its length, then its bytes. */
  function Frame(w: Varints, b: Bytes): Bytes {
    w.put(|b|) + b
  }

  function GetByteSlice(w: Varints, buf: Bytes): Option<(Bytes, nat)> {
    match w.get(buf)
    case None => None
    case Some((length, n)) =>
      if length < 0 || n + length > |buf| then None else Some((buf[n..n + length], n + length))
  }

  /** A frame reads back from the front of any buffer, and says how many bytes it took. */
  lemma FrameRoundTrip(w: Varints, b: Bytes, tail: Bytes)
    requires Lawful(w)
    ensures GetByteSlice(w, Frame(w, b) + tail) == Some((b, |Frame(w, b)|))
  {
    var head := w.put(|b|);
    assert Frame(w, b) + tail == head + (b + tail);
    assert w.get(head + (b + tail)) == Some((|b|, |head|));
    assert (head + (b + tail))[|head|..|head| + |b|] == b;
  }

  /** A slice is read exactly where the buffer holds its length and then its bytes. */
  lemma SliceExactly(w: Varints, buf: Bytes, b: Bytes, n: nat)
    ensures GetByteSlice(w, buf) == Some((b, n)) <==>
            |b| <= n <= |buf| && w.get(buf) == Some((|b|, n - |b|)) && b == buf[n - |b|..n]
  {
  }

  lemma VarintRoundTrip(w: Varints, i: int)
    requires Lawful(w)
    ensures w.get(w.put(i)) == Some((i, |w.put(i)|))
  {
    assert w.put(i) + [] == w.put(i);
  }

  /** Writes the frame of `b` into `buf` from `at` on, if it fits. */
  method PutByteSlice(w: Varints, buf: array<byte>, at: nat, b: Bytes) returns (n: nat, ok: bool)
    requires at <= buf.Length
    modifies buf
    ensures ok <==> at + |Frame(w, b)| <= buf.Length
    ensures ok ==> n == |Frame(w, b)| && buf[..] == old(buf[..at]) + Frame(w, b) + old(buf[at + n..])
    ensures !ok ==> n == 0 && buf[..] == old(buf[..])
  {
    var frame := Frame(w, b);
    if at + |frame| > buf.Length {
      return 0, false;
    }
    forall i | 0 <= i < |frame| {
      buf[at + i] := frame[i];
    }
    return |frame|, true;
  }

  // ---------- A varint codec that meets the law ----------

  /** Binary digits, the lowest first. */
  function Bits(n: nat): Bytes {
    if n == 0 then [] else [if n % 2 == 1 then 1 else 0] + Bits(n / 2)
  }

  /** The digits of the amount, closed by a byte for the sign. */
  function BinaryPut(i: int): Bytes {
    if i < 0 then Bits(-i) + [2] else Bits(i) + [3]
  }

  /** The sign byte, the amount before it and how many bytes they took. */
  function BinaryGet(b: Bytes): Option<(byte, nat, nat)> {
    if b == [] then None
    else if b[0] == 2 || b[0] == 3 then Some((b[0], 0, 1))
    else
      match BinaryGet(b[1..])
      case None => None
      case Some((sign, amount, n)) => Some((sign, 2 * amount + (if b[0] == 1 then 1 else 0), n + 1))
  }

  function BinaryRead(b: Bytes): Option<(int, nat)> {
    match BinaryGet(b)
    case None => None
    case Some((sign, amount, n)) => Some((Signed(amount, sign), n))
  }

  function Signed(amount: nat, sign: byte): int {
    if sign == 2 then 0 - amount else amount
  }

  lemma {:induction false} BitsRead(n: nat, sign: byte, tail: Bytes)
    requires sign == 2 || sign == 3
    ensures BinaryGet(Bits(n) + [sign] + tail) == Some((sign, n, |Bits(n)| + 1))
  {
    if n == 0 {
      assert Bits(n) + [sign] + tail == [sign] + tail;
    } else {
      BitsRead(n / 2, sign, tail);
      var digit: byte := if n % 2 == 1 then 1 else 0;
      var rest := Bits(n / 2) + [sign] + tail;
      assert Bits(n) + [sign] + tail == [digit] + rest;
      assert ([digit] + rest)[1..] == rest;
    }
  }

  function Pow2(k: nat): nat {
    if k == 0 then 1 else 2 * Pow2(k - 1)
  }

  lemma {:induction false} BitsAreFew(n: nat, k: nat)
    requires n < Pow2(k)
    ensures |Bits(n)| <= k
  {
    if n > 0 {
      BitsAreFew(n / 2, k - 1);
    }
  }

  lemma {:induction false} Pow2Adds(j: nat, k: nat)
    ensures Pow2(j + k) == Pow2(j) * Pow2(k)
  {
    if j > 0 {
      Pow2Adds(j - 1, k);
    }
  }

  lemma Pow2Of64()
    ensures Pow2(64) == 0x1_0000_0000_0000_0000
  {
    assert Pow2(8) == 0x100;
    Pow2Adds(8, 8);
    Pow2Adds(16, 16);
    Pow2Adds(32, 32);
  }

  lemma LawfulExists()
    ensures Lawful(Varints(BinaryPut, BinaryRead))
  {
    forall i: int, tail: Bytes ensures BinaryRead(BinaryPut(i) + tail) == Some((i, |BinaryPut(i)|)) {
      if i < 0 {
        BitsRead(-i, 2, tail);
      } else {
        BitsRead(i, 3, tail);
      }
    }
    forall i: int | IsInt(i) ensures |BinaryPut(i)| < 100 {
      Pow2Of64();
      BitsAreFew(if i < 0 then -i else i, 64);
    }
  }
}
