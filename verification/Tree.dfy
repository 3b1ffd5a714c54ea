/** The Merkle tree as what it stores: keys in byte order, each with a value. */
module Tree {
  import opened GoTypes

  datatype Entry = Entry(key: Bytes, value: Bytes)

  type Tree = seq<Entry>

  /** Byte order, a proper prefix first. */
  predicate Less(a: Bytes, b: Bytes) {
    b != [] && (a == [] || a[0] < b[0] || (a[0] == b[0] && Less(a[1..], b[1..])))
  }

  predicate Sorted(t: Tree) {
    forall i, j :: 0 <= i < j < |t| ==> Less(t[i].key, t[j].key)
  }

  function Insert(t: Tree, k: Bytes, v: Bytes): Tree {
    if t == [] || Less(k, t[0].key) then [Entry(k, v)] + t
    else if t[0].key == k then [Entry(k, v)] + t[1..]
    else [t[0]] + Insert(t[1..], k, v)
  }

  function Delete(t: Tree, k: Bytes): Tree {
    if t == [] then []
    else if t[0].key == k then t[1..]
    else [t[0]] + Delete(t[1..], k)
  }

  function Find(t: Tree, k: Bytes): Option<Bytes> {
    if t == [] then None
    else if t[0].key == k then Some(t[0].value)
    else Find(t[1..], k)
  }

  function KeyAt(t: Tree, i: int): Value {
    if 0 <= i < |t| then Data(t[i].key) else Nil
  }

  function Keys(t: Tree): seq<Bytes> {
    seq(|t|, i requires 0 <= i < |t| => t[i].key)
  }

  lemma {:induction false} LessTransitive(a: Bytes, b: Bytes, c: Bytes)
    requires Less(a, b) && Less(b, c)
    ensures Less(a, c)
  {
    if a != [] && a[0] == b[0] == c[0] {
      LessTransitive(a[1..], b[1..], c[1..]);
    }
  }

  lemma {:induction false} LessIrreflexive(a: Bytes)
    ensures !Less(a, a)
  {
    if a != [] {
      LessIrreflexive(a[1..]);
    }
  }

  lemma {:induction false} LessTotal(a: Bytes, b: Bytes)
    ensures Less(a, b) || a == b || Less(b, a)
  {
    if a != [] && b != [] && a[0] == b[0] {
      LessTotal(a[1..], b[1..]);
      if a[1..] == b[1..] {
        assert a == [a[0]] + a[1..];
        assert b == [b[0]] + b[1..];
      }
    }
  }

  predicate Below(k: Bytes, t: Tree) {
    forall i :: 0 <= i < |t| ==> Less(k, t[i].key)
  }

  lemma SortedCons(e: Entry, t: Tree)
    ensures Sorted([e] + t) <==> Below(e.key, t) && Sorted(t)
  {
    var s := [e] + t;
    if Sorted(s) {
      forall i | 0 <= i < |t| ensures Less(e.key, t[i].key) {
        assert Less(s[0].key, s[i + 1].key);
      }
      forall i, j | 0 <= i < j < |t| ensures Less(t[i].key, t[j].key) {
        assert Less(s[i + 1].key, s[j + 1].key);
      }
    }
  }

  lemma {:induction false} InsertBelow(t: Tree, k: Bytes, v: Bytes, p: Bytes)
    requires Less(p, k) && Below(p, t)
    ensures Below(p, Insert(t, k, v))
  {
    if t != [] && !Less(k, t[0].key) && t[0].key != k {
      InsertBelow(t[1..], k, v, p);
    }
  }

  lemma {:induction false} DeleteBelow(t: Tree, k: Bytes, p: Bytes)
    requires Below(p, t)
    ensures Below(p, Delete(t, k))
  {
    if t != [] && t[0].key != k {
      DeleteBelow(t[1..], k, p);
    }
  }

  /** Inserting keeps the order, binds the key and touches no other key. */
  lemma {:induction false} InsertIsMapUpdate(t: Tree, k: Bytes, v: Bytes, q: Bytes)
    requires Sorted(t)
    ensures Sorted(Insert(t, k, v))
    ensures Find(Insert(t, k, v), q) == if q == k then Some(v) else Find(t, q)
  {
    var r := Insert(t, k, v);
    if t == [] || Less(k, t[0].key) {
      assert r[1..] == t;
      forall i | 0 <= i < |t| ensures Less(k, t[i].key) {
        if i > 0 {
          LessTransitive(k, t[0].key, t[i].key);
        }
      }
      SortedCons(Entry(k, v), t);
    } else {
      assert t == [t[0]] + t[1..];
      SortedCons(t[0], t[1..]);
      if t[0].key == k {
        SortedCons(Entry(k, v), t[1..]);
      } else {
        LessTotal(k, t[0].key);
        InsertIsMapUpdate(t[1..], k, v, q);
        InsertBelow(t[1..], k, v, t[0].key);
        SortedCons(t[0], Insert(t[1..], k, v));
      }
    }
  }

  /** Deleting keeps the order, frees the key and touches no other key. */
  lemma {:induction false} DeleteIsMapRemove(t: Tree, k: Bytes, q: Bytes)
    requires Sorted(t)
    ensures Sorted(Delete(t, k))
    ensures Find(Delete(t, k), q) == if q == k then None else Find(t, q)
  {
    if t != [] {
      assert t == [t[0]] + t[1..];
      SortedCons(t[0], t[1..]);
      if t[0].key == k {
        NotBelow(k, t[1..]);
      } else {
        DeleteIsMapRemove(t[1..], k, q);
        DeleteBelow(t[1..], k, t[0].key);
        SortedCons(t[0], Delete(t[1..], k));
      }
    }
  }

  lemma {:induction false} NotBelow(k: Bytes, t: Tree)
    requires Below(k, t)
    ensures Find(t, k) == None
  {
    if t != [] {
      LessIrreflexive(k);
      NotBelow(k, t[1..]);
    }
  }

  lemma {:induction false} KeysAreFound(t: Tree, k: Bytes)
    ensures k in Keys(t) <==> Find(t, k).Some?
  {
    if t != [] {
      KeysAreFound(t[1..], k);
      assert Keys(t) == [t[0].key] + Keys(t[1..]);
    }
  }

  /** The keys of a tree rise, so each stands there once. */
  lemma KeysRise(t: Tree)
    requires Sorted(t)
    ensures forall i, j :: 0 <= i < j < |Keys(t)| ==> Less(Keys(t)[i], Keys(t)[j])
  {
  }

  /** The order is that of the first byte that differs, or of the lengths where none does. */
  lemma {:induction false} LessExactly(a: Bytes, b: Bytes)
    ensures Less(a, b) <==>
            exists n {:trigger Agree(a, b, n)} ::
              0 <= n <= |a| && n < |b| && Agree(a, b, n) && (n == |a| || a[n] < b[n])
  {
    if a != [] && b != [] && a[0] == b[0] {
      LessExactly(a[1..], b[1..]);
      if Less(a[1..], b[1..]) {
        var n :| 0 <= n <= |a[1..]| && n < |b[1..]| && Agree(a[1..], b[1..], n)
                 && (n == |a[1..]| || a[1..][n] < b[1..][n]);
        AgreeCons(a, b, n);
      }
      forall n | 0 <= n <= |a| && n < |b| && Agree(a, b, n) && (n == |a| || a[n] < b[n])
        ensures Less(a[1..], b[1..])
      {
        assert n > 0;
        AgreeCons(a, b, n - 1);
      }
    } else if b != [] {
      assert Agree(a, b, 0);
      forall n | 0 <= n <= |a| && n < |b| && Agree(a, b, n) ensures n == 0 {
        AgreeStarts(a, b, n);
      }
    }
  }

  predicate Agree(a: Bytes, b: Bytes, n: nat)
    requires n <= |a| && n <= |b|
  {
    a[..n] == b[..n]
  }

  lemma AgreeStarts(a: Bytes, b: Bytes, n: nat)
    requires n <= |a| && n <= |b| && Agree(a, b, n)
    ensures n > 0 ==> a[0] == b[0]
  {
    if n > 0 {
      assert a[..n][0] == b[..n][0];
    }
  }

  lemma AgreeCons(a: Bytes, b: Bytes, n: nat)
    requires a != [] && b != [] && a[0] == b[0] && n < |a| && n < |b|
    ensures Agree(a[1..], b[1..], n) <==> Agree(a, b, n + 1)
  {
    assert a[..n + 1] == [a[0]] + a[1..][..n] && b[..n + 1] == [b[0]] + b[1..][..n];
    if Agree(a, b, n + 1) {
      assert a[..n + 1][1..] == b[..n + 1][1..];
    }
  }

  /** What a client reads: keys whose value is not empty. */
  function ReadsOf(t: Tree): View {
    map i | 0 <= i < |t| && Find(t, t[i].key) == Some(t[i].value) && t[i].value != [] :: t[i].key := t[i].value
  }

  lemma {:induction false} FindIn(t: Tree, k: Bytes) returns (i: nat)
    requires Find(t, k).Some?
    ensures i < |t| && t[i] == Entry(k, Find(t, k).value)
  {
    if t[0].key == k {
      i := 0;
    } else {
      i := FindIn(t[1..], k);
      i := i + 1;
    }
  }

  lemma ReadsOfFind(t: Tree, k: Bytes)
    ensures Read(ReadsOf(t), k) ==
            match Find(t, k) case None => Nil case Some(v) => if v == [] then Nil else Data(v)
  {
  }

  function Stored(v: Bytes): Value {
    if v == [] then Nil else Data(v)
  }

  lemma InsertReads(t: Tree, k: Bytes, v: Bytes)
    requires Sorted(t)
    ensures Sorted(Insert(t, k, v))
    ensures ReadsOf(Insert(t, k, v)) == Put(ReadsOf(t), k, Stored(v))
  {
    hide Sorted, Insert, Find, ReadsOf;
    var a, b := ReadsOf(Insert(t, k, v)), Put(ReadsOf(t), k, Stored(v));
    InsertIsMapUpdate(t, k, v, k);
    forall q ensures Read(a, q) == Read(b, q) {
      InsertIsMapUpdate(t, k, v, q);
      ReadsOfFind(t, q);
      ReadsOfFind(Insert(t, k, v), q);
    }
    SameReads(a, b);
  }

  lemma DeleteReads(t: Tree, k: Bytes)
    requires Sorted(t)
    ensures Sorted(Delete(t, k))
    ensures ReadsOf(Delete(t, k)) == Put(ReadsOf(t), k, Nil)
  {
    hide Sorted, Delete, Find, ReadsOf;
    var a, b := ReadsOf(Delete(t, k)), Put(ReadsOf(t), k, Nil);
    DeleteIsMapRemove(t, k, k);
    forall q ensures Read(a, q) == Read(b, q) {
      DeleteIsMapRemove(t, k, q);
      ReadsOfFind(t, q);
      ReadsOfFind(Delete(t, k), q);
    }
    SameReads(a, b);
  }
}
