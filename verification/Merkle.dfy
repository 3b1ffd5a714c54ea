/** The Merkle app behind its frames, and the client that makes it a store. */
module Merkle {
  import opened GoTypes
  import opened Wire
  import opened Tree
  import opened Query
  import opened WriteLog

  /** `Panic` stands for a Go panic, here over the proof of a key that has none. */
  datatype Code = OK | EncodingError | InternalError | UnknownRequest | ValueNotFound | Panic

  datatype Result = Result(code: Code, data: Value) {
    predicate IsErr() {
      code != OK
    }
  }

  const SET_TX: byte := 1
  const REM_TX: byte := 2

  /** What a transaction asks of the tree. */
  datatype Request = SetRequest(key: Bytes, value: Bytes) | RemRequest(key: Bytes) | BadRequest(code: Code)

  function ParseTx(w: Varints, tx: Bytes): Request {
    if tx == [] then BadRequest(EncodingError)
    else
      match GetByteSlice(w, tx[1..])
      case None => BadRequest(EncodingError)
      case Some((key, n)) =>
        var rest := tx[1..][n..];
        if tx[0] == SET_TX then
          match GetByteSlice(w, rest)
          case None => BadRequest(EncodingError)
          case Some((value, m)) => if rest[m..] == [] then SetRequest(key, value) else BadRequest(EncodingError)
        else if tx[0] == REM_TX then
          if rest == [] then RemRequest(key) else BadRequest(EncodingError)
        else BadRequest(UnknownRequest)
  }

  function Apply(t: Tree, r: Request): Tree {
    match r
    case SetRequest(k, v) => Insert(t, k, v)
    case RemRequest(k) => Delete(t, k)
    case BadRequest(_) => t
  }

  function SetFrame(w: Varints, key: Bytes, value: Bytes): Bytes {
    [SET_TX] + Frame(w, key) + Frame(w, value)
  }

  function RemFrame(w: Varints, key: Bytes): Bytes {
    [REM_TX] + Frame(w, key)
  }

  /** Every frame parses back as the request it was built for, with no bytes left over. */
  lemma FramesParse(w: Varints, key: Bytes, value: Bytes)
    requires Lawful(w)
    ensures ParseTx(w, SetFrame(w, key, value)) == SetRequest(key, value)
    ensures ParseTx(w, RemFrame(w, key)) == RemRequest(key)
  {
    var k, v := Frame(w, key), Frame(w, value);
    assert SetFrame(w, key, value)[1..] == k + v;
    FrameRoundTrip(w, key, v);
    assert (k + v)[|k|..] == v;
    FrameRoundTrip(w, value, []);
    assert v + [] == v;
    assert RemFrame(w, key)[1..] == k;
    FrameRoundTrip(w, key, []);
    assert k + [] == k;
  }

  /** A frame with anything behind it is refused. */
  lemma LeftOversAreRefused(w: Varints, key: Bytes, value: Bytes, extra: Bytes)
    requires Lawful(w) && extra != []
    ensures ParseTx(w, SetFrame(w, key, value) + extra) == BadRequest(EncodingError)
    ensures ParseTx(w, RemFrame(w, key) + extra) == BadRequest(EncodingError)
  {
    hide GetByteSlice;
    var k, v := Frame(w, key), Frame(w, value);
    assert (SetFrame(w, key, value) + extra)[1..] == k + (v + extra);
    FrameRoundTrip(w, key, v + extra);
    assert (k + (v + extra))[|k|..] == v + extra;
    FrameRoundTrip(w, value, extra);
    assert (v + extra)[|v|..] == extra;
    assert (RemFrame(w, key) + extra)[1..] == k + extra;
    FrameRoundTrip(w, key, extra);
    assert (k + extra)[|k|..] == extra;
  }

  /** An empty transaction and slices that are cut short are encoding errors, whatever is behind a whole key of
      an unknown type is an unknown request. */
  lemma BadFramesAreRefused(w: Varints, typ: byte, key: Bytes, value: Bytes, cut: nat, rest: Bytes)
    requires Lawful(w)
    ensures ParseTx(w, []) == BadRequest(EncodingError)
    ensures cut < |key| ==> ParseTx(w, [typ] + w.put(|key|) + key[..cut]) == BadRequest(EncodingError)
    ensures cut < |value| ==>
              ParseTx(w, [SET_TX] + Frame(w, key) + w.put(|value|) + value[..cut]) == BadRequest(EncodingError)
    ensures typ != SET_TX && typ != REM_TX ==>
              ParseTx(w, [typ] + Frame(w, key) + rest) == BadRequest(UnknownRequest)
  {
    var k := Frame(w, key);
    if cut < |key| {
      assert ([typ] + w.put(|key|) + key[..cut])[1..] == w.put(|key|) + key[..cut];
      CutSliceIsRefused(w, key, cut);
    }
    hide GetByteSlice, Frame;
    if cut < |value| {
      var v := w.put(|value|) + value[..cut];
      assert ([SET_TX] + k + w.put(|value|) + value[..cut])[1..] == k + v;
      FrameRoundTrip(w, key, v);
      assert (k + v)[|k|..] == v;
      CutSliceIsRefused(w, value, cut);
    }
    assert ([typ] + k + rest)[1..] == k + rest;
    FrameRoundTrip(w, key, rest);
  }

  lemma CutSliceIsRefused(w: Varints, b: Bytes, cut: nat)
    requires Lawful(w) && cut < |b|
    ensures GetByteSlice(w, w.put(|b|) + b[..cut]) == None
  {
    assert w.get(w.put(|b|) + b[..cut]) == Some((|b|, |w.put(|b|)|));
  }

  /** What the app answers to a query over a tree. */
  function Answer(w: Varints, t: Tree, prove: (Tree, Bytes) -> Option<Bytes>, query: Bytes): Result {
    if query == [] then Result(EncodingError, Nil)
    else if query[0] == QUERY_VALUE || query[0] == QUERY_PROOF then
      match GetByteSlice(w, query[1..])
      case None => Result(EncodingError, Nil)
      case Some((key, n)) =>
        if query[1..][n..] != [] then Result(EncodingError, Nil)
        else if query[0] == QUERY_PROOF then
          match prove(t, key) case None => Result(Panic, Nil) case Some(proof) => Result(OK, Data(proof))
        else if Find(t, key) == None || Find(t, key) == Some([]) then Result(ValueNotFound, Nil)
        else Result(OK, Data(Find(t, key).value))
    else if query[0] == QUERY_INDEX then
      match w.get(query[1..])
      case None => Result(EncodingError, Nil)
      case Some((i, n)) =>
        if n < |query[1..]| then Result(EncodingError, Nil) else Result(OK, KeyAt(t, i))
    else if query[0] == QUERY_SIZE then Result(OK, Data(w.put(|t|)))
    else Result(UnknownRequest, Nil)
  }

  /** The three kinds of query answer with the value read, the key at an index, and the size. */
  lemma QueriesAnswer(w: Varints, t: Tree, prove: (Tree, Bytes) -> Option<Bytes>, key: Bytes, i: int)
    requires Lawful(w)
    ensures var r := Answer(w, t, prove, [QUERY_VALUE] + Frame(w, key));
      r.data == Read(ReadsOf(t), key) && (r.IsErr() <==> key !in ReadsOf(t))
    ensures Answer(w, t, prove, [QUERY_INDEX] + w.put(i)) == Result(OK, KeyAt(t, i))
    ensures var r := Answer(w, t, prove, EmptyQuery(QUERY_SIZE));
      r.code == OK && r.data.Data? && w.get(r.data.bytes) == Some((|t|, |r.data.bytes|))
  {
    var k := Frame(w, key);
    assert ([QUERY_VALUE] + k)[1..] == k;
    FrameRoundTrip(w, key, []);
    assert k + [] == k;
    ReadsOfFind(t, key);
    assert ([QUERY_INDEX] + w.put(i))[1..] == w.put(i);
    VarintRoundTrip(w, i);
    VarintRoundTrip(w, |t|);
  }

  /** A key that reads as nothing is not found, a proof is what the tree has, and an empty query, bytes left over
      and an unknown type have their codes. */
  lemma OtherQueriesAnswer(w: Varints, t: Tree, prove: (Tree, Bytes) -> Option<Bytes>, key: Bytes, i: int, query: Bytes)
    requires Lawful(w)
    ensures key !in ReadsOf(t) ==>
              Answer(w, t, prove, [QUERY_VALUE] + Frame(w, key)) == Result(ValueNotFound, Nil)
    ensures Answer(w, t, prove, [QUERY_PROOF] + Frame(w, key)) ==
            match prove(t, key) case None => Result(Panic, Nil) case Some(proof) => Result(OK, Data(proof))
    ensures i < 0 || i >= |t| ==> Answer(w, t, prove, [QUERY_INDEX] + w.put(i)) == Result(OK, Nil)
    ensures Answer(w, t, prove, []) == Result(EncodingError, Nil)
    ensures query != [] ==>
              && Answer(w, t, prove, [QUERY_VALUE] + Frame(w, key) + query) == Result(EncodingError, Nil)
              && Answer(w, t, prove, [QUERY_PROOF] + Frame(w, key) + query) == Result(EncodingError, Nil)
              && Answer(w, t, prove, [QUERY_INDEX] + w.put(i) + query) == Result(EncodingError, Nil)
    ensures query != [] && query[0] !in [QUERY_VALUE, QUERY_INDEX, QUERY_SIZE, QUERY_PROOF] ==>
              Answer(w, t, prove, query) == Result(UnknownRequest, Nil)
  {
    var k := Frame(w, key);
    assert ([QUERY_VALUE] + k)[1..] == k && ([QUERY_PROOF] + k)[1..] == k && k + [] == k;
    assert ([QUERY_VALUE] + k + query)[1..] == k + query && ([QUERY_PROOF] + k + query)[1..] == k + query;
    assert ([QUERY_INDEX] + w.put(i) + query)[1..] == w.put(i) + query;
    assert ([QUERY_INDEX] + w.put(i))[1..] == w.put(i);
    VarintRoundTrip(w, i);
    FrameRoundTrip(w, key, []);
    FrameRoundTrip(w, key, query);
    assert (k + query)[|k|..] == query;
    ReadsOfFind(t, key);
    hide GetByteSlice, Frame, Find, ReadsOf;
  }

  class MerkleApp {
    const w: Varints
    const prove: (Tree, Bytes) -> Option<Bytes>
    var tree: Tree

    constructor (w: Varints, prove: (Tree, Bytes) -> Option<Bytes>)
      ensures this.w == w && this.prove == prove && tree == []
    {
      this.w, this.prove, tree := w, prove, [];
    }

    method AppendTx(tx: Bytes) returns (res: Result)
      modifies this
      ensures tree == Apply(old(tree), ParseTx(w, tx))
      ensures res.code == match ParseTx(w, tx) case BadRequest(code) => code case _ => OK
    {
      if |tx| == 0 {
        return Result(EncodingError, Nil);
      }
      var typeByte, rest := tx[0], tx[1..];
      var parsed := GetByteSlice(w, rest);
      if parsed == None {
        return Result(EncodingError, Nil);
      }
      var (key, n) := parsed.value;
      rest := rest[n..];
      if typeByte == SET_TX {
        var parsedValue := GetByteSlice(w, rest);
        if parsedValue == None {
          return Result(EncodingError, Nil);
        }
        var (value, m) := parsedValue.value;
        rest := rest[m..];
        if |rest| != 0 {
          return Result(EncodingError, Nil);
        }
        tree := Insert(tree, key, value);
      } else if typeByte == REM_TX {
        if |rest| != 0 {
          return Result(EncodingError, Nil);
        }
        tree := Delete(tree, key);
      } else {
        return Result(UnknownRequest, Nil);
      }
      return Result(OK, Nil);
    }

    method Query(query: Bytes) returns (res: Result)
      ensures res == Answer(w, tree, prove, query)
    {
      if |query| == 0 {
        return Result(EncodingError, Nil);
      }
      var queryType, rest := query[0], query[1..];
      if queryType == QUERY_VALUE || queryType == QUERY_PROOF {
        var parsed := GetByteSlice(w, rest);
        if parsed == None {
          return Result(EncodingError, Nil);
        }
        var (key, n) := parsed.value;
        if |rest[n..]| != 0 {
          return Result(EncodingError, Nil);
        }
        if queryType == QUERY_PROOF {
          var proof := prove(tree, key);
          if proof == None {
            return Result(Panic, Nil);
          }
          return Result(OK, Data(proof.value));
        }
        var value := Find(tree, key);
        if value == None || |value.value| == 0 {
          return Result(ValueNotFound, Nil);
        }
        return Result(OK, Data(value.value));
      } else if queryType == QUERY_INDEX {
        var parsed := w.get(rest);
        if parsed == None {
          return Result(EncodingError, Nil);
        }
        var (index, n) := parsed.value;
        if n < |rest| {
          return Result(EncodingError, Nil);
        }
        return Result(OK, KeyAt(tree, index));
      } else if queryType == QUERY_SIZE {
        return Result(OK, Data(w.put(|tree|)));
      }
      return Result(UnknownRequest, Nil);
    }
  }

  /** A client over an embedded Merkle app. */
  class Client {
    const w: Varints
    const merk: MerkleApp
    /** The writes asked of this store, in order. */
    ghost var writes: Log

    ghost predicate Valid()
      reads merk
    {
      merk.w == w && Lawful(w) && Sorted(merk.tree)
    }

    /** What the store reads as. */
    ghost function View(): View
      reads merk
    {
      ReadsOf(merk.tree)
    }

    constructor (w: Varints, prove: (Tree, Bytes) -> Option<Bytes>)
      requires Lawful(w)
      ensures Valid() && fresh(merk) && View() == map[]
    {
      this.w := w;
      merk := new MerkleApp(w, prove);
      writes := [];
    }

    method QuerySync(query: Bytes) returns (res: Result)
      ensures res == Answer(merk.w, merk.tree, merk.prove, query)
    {
      res := merk.Query(query);
    }

    method GetSync(key: Bytes) returns (res: Result)
      requires Valid()
      ensures res.data == Read(View(), key) && (res.IsErr() <==> key !in View())
    {
      var query := KeyQuery(w, key, QUERY_VALUE);
      QueriesAnswer(w, merk.tree, merk.prove, key, 0);
      res := QuerySync(query);
      if res.IsErr() {
        return res;
      }
      return Result(OK, res.data);
    }

    method SetSync(key: Bytes, value: Bytes) returns (res: Result)
      requires Valid()
      modifies merk
      ensures Valid() && res.code == OK
      ensures merk.tree == Insert(old(merk.tree), key, value)
      ensures View() == Put(old(View()), key, Stored(value))
    {
      var txBytes := new byte[|Frame(w, key)| + |Frame(w, value)| + 1];
      txBytes[0] := SET_TX;
      var n, ok := PutByteSlice(w, txBytes, 1, key);
      if !ok {
        return Result(InternalError, Nil);
      }
      assert txBytes[..1 + n] == [SET_TX] + Frame(w, key);
      n, ok := PutByteSlice(w, txBytes, 1 + n, value);
      if !ok {
        return Result(InternalError, Nil);
      }
      assert txBytes[..] == SetFrame(w, key, value);
      FramesParse(w, key, value);
      InsertReads(merk.tree, key, value);
      res := merk.AppendTx(txBytes[..]);
    }

    method RemSync(key: Bytes) returns (res: Result)
      requires Valid()
      modifies merk
      ensures Valid() && res.code == OK
      ensures merk.tree == Delete(old(merk.tree), key)
      ensures View() == Put(old(View()), key, Nil)
    {
      var tx := new byte[|Frame(w, key)| + 1];
      tx[0] := REM_TX;
      var n, ok := PutByteSlice(w, tx, 1, key);
      if !ok {
        return Result(InternalError, Nil);
      }
      assert tx[..] == RemFrame(w, key);
      FramesParse(w, key, []);
      DeleteReads(merk.tree, key);
      res := merk.AppendTx(tx[..]);
    }

    method Get(key: Bytes) returns (value: Value)
      requires Valid()
      ensures value == Read(View(), key)
    {
      var res := GetSync(key);
      return res.data;
    }

    /** A nil value is framed like an empty one. */
    method Set(key: Bytes, value: Value)
      requires Valid()
      modifies merk, this`writes
      ensures Valid()
      ensures View() == Put(old(View()), key, if value.Data? then Stored(value.bytes) else Nil)
      ensures writes == old(writes) + [Write(key, value)]
    {
      writes := writes + [Write(key, value)];
      var _ := SetSync(key, if value.Data? then value.bytes else []);
    }

    method Remove(key: Bytes)
      requires Valid()
      modifies merk
      ensures Valid() && View() == Put(old(View()), key, Nil)
    {
      var _ := RemSync(key);
    }
  }

  // ---------- Whole runs of the client ----------

  /** A run of requests on the tree, in order. */
  function ApplyAll(t: Tree, rs: seq<Request>): Tree {
    if rs == [] then t else Apply(ApplyAll(t, rs[..|rs| - 1]), rs[|rs| - 1])
  }

  /** What the last request for `k` left there, `start` if there was none. */
  function LastFor(rs: seq<Request>, k: Bytes, start: Value): Value {
    if rs == [] then start
    else
      match rs[|rs| - 1]
      case SetRequest(q, v) => if q == k then Stored(v) else LastFor(rs[..|rs| - 1], k, start)
      case RemRequest(q) => if q == k then Nil else LastFor(rs[..|rs| - 1], k, start)
      case BadRequest(_) => LastFor(rs[..|rs| - 1], k, start)
  }

  /** After any run, a key reads as the last value set if it is not empty and not removed since, else nil. */
  lemma {:induction false} ClientReadsLast(t: Tree, rs: seq<Request>, k: Bytes)
    requires Sorted(t)
    ensures Sorted(ApplyAll(t, rs))
    ensures Read(ReadsOf(ApplyAll(t, rs)), k) == LastFor(rs, k, Read(ReadsOf(t), k))
  {
    hide Sorted, ReadsOf, Insert, Delete;
    if rs != [] {
      var p := ApplyAll(t, rs[..|rs| - 1]);
      ClientReadsLast(t, rs[..|rs| - 1], k);
      match rs[|rs| - 1]
      case SetRequest(q, v) => InsertReads(p, q, v);
      case RemRequest(q) => DeleteReads(p, q);
      case BadRequest(_) =>
    }
  }
}
