/** The Go types the ledger is written in: bytes, byte slices and optional values. */
module GoTypes {
  type byte = bv8

  /** A Go string or a byte slice whose nil-ness does not matter. */
  type Bytes = seq<byte>

  datatype Option<+T> = None | Some(value: T)

  /** A byte slice whose nil-ness does matter, such as the value of a store. */
  datatype Value = Nil | Data(bytes: Bytes)

  /** What a store reads as: a key that is absent reads as `Nil`. */
  type View = map<Bytes, Bytes>

  function Read(view: View, k: Bytes): Value {
    if k in view then Data(view[k]) else Nil
  }

  function Put(view: View, k: Bytes, v: Value): View {
    match v
    case Nil => view - {k}
    case Data(b) => view[k := b]
  }

  lemma SameReads(a: View, b: View)
    requires forall k :: Read(a, k) == Read(b, k)
    ensures a == b
  {
    forall k ensures k in a <==> k in b {
      assert Read(a, k) == Read(b, k);
    }
    forall k | k in a ensures a[k] == b[k] {
      assert Read(a, k) == Read(b, k);
    }
  }
}
