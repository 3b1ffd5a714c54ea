/** The query frames sent to the Merkle app. */
module Query {
  import opened GoTypes
  import opened Wire

  const QUERY_VALUE: byte := 1
  const QUERY_INDEX: byte := 2
  const QUERY_SIZE: byte := 3
  const QUERY_PROOF: byte := 4

  const INDEX_QUERY_ROOM := 100

  function EmptyQuery(queryType: byte): Bytes {
    [queryType]
  }

  method KeyQuery(w: Varints, key: Bytes, queryType: byte) returns (query: Bytes)
    ensures query == [queryType] + Frame(w, key)
  {
    var buf := new byte[|Frame(w, key)| + 1];
    buf[0] := queryType;
    var _, _ := PutByteSlice(w, buf, 1, key);
    return buf[..];
  }

  /** The index query as it is sent; nil where the varint does not fit the buffer. */
  function IndexFrame(w: Varints, i: int): Value {
    if 1 + |w.put(i)| <= INDEX_QUERY_ROOM then Data([QUERY_INDEX] + w.put(i)) else Nil
  }

  /** Fills the buffer and cuts it to the varint's length. */
  method IndexQuery(w: Varints, i: int) returns (query: Value)
    ensures query == IndexFrame(w, i)
    ensures query == Nil <==> |w.put(i)| >= INDEX_QUERY_ROOM
    ensures Lawful(w) && IsInt(i) ==> query == Data([QUERY_INDEX] + w.put(i))
  {
    var buf := new byte[INDEX_QUERY_ROOM];
    buf[0] := QUERY_INDEX;
    var varint := w.put(i);
    var n := |varint|;
    if 1 + n > buf.Length {
      return Nil;
    }
    forall j | 0 <= j < n {
      buf[1 + j] := varint[j];
    }
    return Data(buf[..n + 1]);
  }
}
