/** The write log of a cache: a doubly linked list in last-write order and a map into it. */
module KV {
  import opened GoTypes
  import opened WriteLog
  import opened Hex

  class KVNode {
    const key: Bytes
    var value: Value
    var next: KVNode?
    var prev: KVNode?

    constructor (key: Bytes, value: Value)
      ensures this.key == key && this.value == value && next == null && prev == null
    {
      this.key, this.value, next, prev := key, value, null, null;
    }
  }

  /** Neighbours in `ns` point at each other, and the two ends point nowhere. */
  ghost predicate Linked(ns: seq<KVNode>)
    reads ns`next, ns`prev
  {
    && (forall i {:trigger ns[i].prev} :: 0 <= i < |ns| ==> ns[i].prev == if i == 0 then null else ns[i - 1])
    && (forall i {:trigger ns[i].next} :: 0 <= i < |ns| ==> ns[i].next == if i == |ns| - 1 then null else ns[i + 1])
  }

  /** A linked list cannot meet the same node twice. */
  lemma LinkedIsAcyclic(ns: seq<KVNode>, i: nat)
    requires Linked(ns) && i < |ns|
    ensures forall j :: 0 <= j < |ns| && j != i ==> ns[j] != ns[i]
  {
    forall j | 0 <= j < |ns| && j != i ensures ns[j] != ns[i] {
      if j < i { NeverBack(ns, j, i); } else { NeverBack(ns, i, j); }
    }
  }

  lemma {:induction false} NeverBack(ns: seq<KVNode>, i: nat, j: nat)
    requires Linked(ns) && i < j < |ns|
    ensures ns[i] != ns[j]
  {
    if ns[i] == ns[j] {
      assert ns[i].prev == ns[j].prev;
      if i > 0 {
        NeverBack(ns, i - 1, j - 1);
      }
    }
  }

  /** `log` lists the keys and values of `ns`. */
  ghost predicate Lists(log: Log, ns: seq<KVNode>)
    reads ns`value
  {
    && |log| == |ns|
    && forall i :: 0 <= i < |ns| ==> log[i] == Write(ns[i].key, ns[i].value)
  }

  /** The nodes met by following `next` from `n`, giving up after `limit` of them. */
  ghost function Walk(n: KVNode?, limit: nat): seq<KVNode>
    reads *
    decreases limit
  {
    if n == null || limit == 0 then [] else [n] + Walk(n.next, limit - 1)
  }

  /** Every node of `ns` under the hex form of its key, and nothing else. */
  ghost function IndexOf(ns: seq<KVNode>): map<Bytes, KVNode> {
    if ns == [] then map[]
    else IndexOf(ns[..|ns| - 1])[BytesToHexstr(ns[|ns| - 1].key) := ns[|ns| - 1]]
  }

  ghost predicate DistinctNodeKeys(ns: seq<KVNode>) {
    forall i, j :: 0 <= i < j < |ns| ==> ns[i].key != ns[j].key
  }

  lemma {:induction false} IndexedAt(ns: seq<KVNode>, s: Bytes) returns (i: nat)
    requires s in IndexOf(ns)
    ensures i < |ns| && IndexOf(ns)[s] == ns[i] && BytesToHexstr(ns[i].key) == s
  {
    if s == BytesToHexstr(ns[|ns| - 1].key) {
      i := |ns| - 1;
    } else {
      i := IndexedAt(ns[..|ns| - 1], s);
    }
  }

  lemma {:induction false} IndexHolds(ns: seq<KVNode>, i: nat)
    requires i < |ns| && DistinctNodeKeys(ns)
    ensures BytesToHexstr(ns[i].key) in IndexOf(ns) && IndexOf(ns)[BytesToHexstr(ns[i].key)] == ns[i]
  {
    if i < |ns| - 1 {
      IndexHolds(ns[..|ns| - 1], i);
      if BytesToHexstr(ns[i].key) == BytesToHexstr(ns[|ns| - 1].key) {
        HexInjective(ns[i].key, ns[|ns| - 1].key);
      }
    }
  }

  /** With distinct keys the index depends on which nodes there are, not on their order. */
  lemma IndexIgnoresOrder(ns: seq<KVNode>, moved: seq<KVNode>)
    requires DistinctNodeKeys(ns) && DistinctNodeKeys(moved)
    requires forall n :: n in ns <==> n in moved
    ensures IndexOf(moved) == IndexOf(ns)
  {
    forall s | s in IndexOf(ns) ensures s in IndexOf(moved) && IndexOf(moved)[s] == IndexOf(ns)[s] {
      var j := IndexedAt(ns, s);
      assert ns[j] in moved;
      var k :| 0 <= k < |moved| && moved[k] == ns[j];
      IndexHolds(moved, k);
    }
    forall s | s in IndexOf(moved) ensures s in IndexOf(ns) {
      var j := IndexedAt(moved, s);
      assert moved[j] in ns;
      var k :| 0 <= k < |ns| && ns[k] == moved[j];
      IndexHolds(ns, k);
    }
  }

  ghost function Cut<T>(s: seq<T>, i: nat): seq<T>
    requires i < |s|
  {
    s[..i] + s[i + 1..]
  }

  ghost function ToEnd<T>(s: seq<T>, i: nat): seq<T>
    requires i < |s|
  {
    Cut(s, i) + [s[i]]
  }

  lemma MovedSameNodes(ns: seq<KVNode>, i: nat)
    requires i < |ns| && DistinctNodeKeys(ns)
    ensures DistinctNodeKeys(ToEnd(ns, i))
    ensures forall n :: n in ns <==> n in ToEnd(ns, i)
  {
  }

  lemma ListsPushed(log: Log, ns: seq<KVNode>, n: KVNode)
    requires Lists(log, ns)
    ensures Lists(log + [Write(n.key, n.value)], ns + [n])
  {
  }

  lemma ListsMoved(log: Log, ns: seq<KVNode>, i: nat)
    requires |log| == |ns| && i < |ns|
    requires forall j :: 0 <= j < |ns| && j != i ==> log[j] == Write(ns[j].key, ns[j].value)
    ensures Lists(Cut(log, i) + [Write(ns[i].key, ns[i].value)], ToEnd(ns, i))
  {
  }

  class KVList {
    var head: KVNode?
    var tail: KVNode?
    ghost var nodes: seq<KVNode>
    ghost var entries: Log

    ghost predicate Valid()
      reads this, nodes
    {
      && Chained()
      && Lists(entries, nodes)
    }

    ghost predicate Chained()
      reads this, nodes
    {
      && Linked(nodes)
      && (if nodes == [] then head == null && tail == null
          else head == nodes[0] && tail == nodes[|nodes| - 1])
    }

    constructor ()
      ensures Valid() && nodes == [] && entries == []
    {
      head, tail, nodes, entries := null, null, [], [];
    }

    method Push(key: Bytes, value: Value) returns (kvn: KVNode)
      requires Valid()
      modifies this, nodes
      ensures Valid() && fresh(kvn)
      ensures nodes == old(nodes) + [kvn]
      ensures kvn.key == key
      ensures entries == old(entries) + [Write(key, value)]
    {
      hide Lists;
      if nodes != [] { LinkedIsAcyclic(nodes, |nodes| - 1); }
      kvn := new KVNode(key, value);
      ListsPushed(entries, nodes, kvn);
      if head == null {
        head := kvn;
      } else {
        tail.next := kvn;
        kvn.prev := tail;
      }
      tail := kvn;
      nodes, entries := nodes + [kvn], entries + [Write(key, value)];
    }

    /** Gives `kvn` a new value and moves it to the end, wherever in the list it stands. */
    method Update(value: Value, kvn: KVNode, ghost i: nat)
      requires Valid()
      requires i < |nodes| && nodes[i] == kvn
      modifies this, nodes
      ensures Valid()
      ensures nodes == ToEnd(old(nodes), i)
      ensures entries == Cut(old(entries), i) + [Write(kvn.key, value)]
    {
      hide Linked;
      LinkedIsAcyclic(nodes, i);
      kvn.value := value;
      entries := Cut(entries, i) + [Write(kvn.key, value)];
      ListsMoved(old(entries), nodes, i);
      MoveToEnd(kvn, i);
    }

    /** Takes out a node and puts it behind the last one, unless it is that. */
    method MoveToEnd(kvn: KVNode, ghost i: nat)
      requires Chained()
      requires i < |nodes| && nodes[i] == kvn
      modifies this`head, this`tail, this`nodes, nodes`next, nodes`prev
      ensures Chained()
      ensures nodes == ToEnd(old(nodes), i)
    {
      hide Linked;
      LinkedIsAcyclic(nodes, i);
      assert i == |nodes| - 1 ==> ToEnd(nodes, i) == nodes;
      if tail != kvn {
        Unlink(kvn, i);
        Relink(kvn);
      }
    }

    /** Takes out a node that is not the last one. */
    method Unlink(kvn: KVNode, ghost i: nat)
      requires Chained()
      requires i < |nodes| - 1 && nodes[i] == kvn
      modifies this`head, this`nodes, nodes`next, nodes`prev
      ensures Chained() && kvn !in nodes
      ensures nodes == Cut(old(nodes), i)
    {
      LinkedIsAcyclic(nodes, i);
      LinkedIsAcyclic(nodes, i + 1);
      if head == kvn {
        kvn.next.prev := null;
        head := kvn.next;
      } else {
        LinkedIsAcyclic(nodes, i - 1);
        kvn.prev.next := kvn.next;
        kvn.next.prev := kvn.prev;
      }
      nodes := Cut(nodes, i);
    }

    /** Puts a node that is not in the list behind the last one. */
    method Relink(kvn: KVNode)
      requires Chained() && nodes != [] && kvn !in nodes
      modifies this`tail, this`nodes, tail`next, kvn`next, kvn`prev
      ensures Chained()
      ensures nodes == old(nodes) + [kvn]
    {
      LinkedIsAcyclic(nodes, |nodes| - 1);
      tail.next := kvn;
      kvn.prev := tail;
      tail := kvn;
      kvn.next := null;
      nodes := nodes + [kvn];
    }

    /** The node at `i` holds entry `i` and points to the node at `i + 1`, if there is one. */
    lemma NodeAt(i: nat)
      requires Valid() && i < |nodes|
      ensures |entries| == |nodes| && Write(nodes[i].key, nodes[i].value) == entries[i]
      ensures nodes[i].next == if i == |nodes| - 1 then null else nodes[i + 1]
    {
    }

    /** Walking from `head` meets exactly the nodes of the list, once each, and then stops. */
    lemma WalkIsNodes(limit: nat)
      requires Valid() && limit >= |nodes|
      ensures Walk(head, limit) == nodes
    {
      if nodes != [] {
        WalkFrom(0, limit);
      }
    }

    lemma {:induction false} WalkFrom(i: nat, limit: nat)
      requires Valid() && i < |nodes| && limit >= |nodes| - i
      ensures Walk(nodes[i], limit) == nodes[i..]
      decreases limit
    {
      assert nodes[i..] == [nodes[i]] + nodes[i + 1..];
      if i + 1 < |nodes| {
        WalkFrom(i + 1, limit - 1);
      }
    }
  }

  class KVMap {
    var list: KVList
    var m: map<Bytes, KVNode>
    ghost var history: Log

    ghost var Repr: set<object>

    /** The list is well linked, its walk is the compacted history, and `m` indexes exactly its nodes. */
    ghost predicate Valid()
      reads this, Repr
      ensures Valid() ==> this in Repr
    {
      && this in Repr && list in Repr && (forall i :: 0 <= i < |list.nodes| ==> list.nodes[i] in Repr)
      && list.Valid()
      && list.entries == LastWrites(history)
      && m == IndexOf(list.nodes)
    }

    constructor ()
      ensures Valid() && fresh(Repr) && history == []
    {
      list := new KVList();
      Repr := {this, list};
      m := map[];
      history := [];
    }

    /** Pushes a new node for `key`, or updates the one it has. */
    method Set(key: Bytes, value: Value)
      requires Valid()
      modifies Repr
      ensures Valid() && fresh(Repr - old(Repr)) && list == old(list)
      ensures history == old(history) + [Write(key, value)]
      ensures list.entries == Rewrite(old(list.entries), key, value)
    {
      hide Linked, Lists, LastWrites, Without, BytesToHexstr;
      var keystr := BytesToHexstr(key);
      ghost var before, ns := list.entries, list.nodes;
      if keystr !in m {
        assert Without(before, key) == before by {
          NoNode(key);
          WithoutNothing(before, key);
        }
        var kvn := list.Push(key, value);
        assert list.nodes[..|ns|] == ns;
        m := m[keystr := kvn];
        Repr := Repr + {kvn};
      } else {
        var kvn := m[keystr];
        ghost var i := IndexedAt(ns, keystr);
        HexInjective(kvn.key, key);
        Moving(i);
        list.Update(value, kvn, i);
      }
      LastWritesSnoc(history, Write(key, value));
      history := history + [Write(key, value)];
    }

    method Get(key: Bytes) returns (value: Value)
      requires Valid()
      ensures value == Lookup(list.entries, key) == Lookup(history, key)
    {
      var keystr := BytesToHexstr(key);
      KeysAreDistinct();
      LastWritesAreLast(history, key);
      if keystr in m {
        var kvn := m[keystr];
        ghost var i := IndexedAt(list.nodes, keystr);
        HexInjective(kvn.key, key);
        LookupAt(list.entries, i);
        return kvn.value;
      }
      NoNode(key);
      LookupNothing(list.entries, key);
      return Nil;
    }

    lemma KeysAreDistinct()
      requires Valid()
      ensures DistinctKeys(list.entries) && DistinctNodeKeys(list.nodes)
    {
      LastWritesAreLast(history, []);
      forall i, j | 0 <= i < j < |list.nodes| ensures list.nodes[i].key != list.nodes[j].key {
        assert list.entries[i].key != list.entries[j].key;
      }
    }

    lemma Moving(i: nat)
      requires Valid() && i < |list.nodes|
      ensures
        var ns, log := list.nodes, list.entries;
        && IndexOf(ToEnd(ns, i)) == m
        && Cut(log, i) == Without(log, ns[i].key)
        && forall j :: 0 <= j < |ns| ==> ToEnd(ns, i)[j] in Repr
    {
      KeysAreDistinct();
      MovedSameNodes(list.nodes, i);
      IndexIgnoresOrder(list.nodes, ToEnd(list.nodes, i));
      WithoutAt(list.entries, i);
    }

    lemma NoNode(key: Bytes)
      requires Valid() && BytesToHexstr(key) !in m
      ensures !Mentions(list.entries, key)
    {
      KeysAreDistinct();
      forall i | 0 <= i < |list.entries| ensures list.entries[i].key != key {
        IndexHolds(list.nodes, i);
      }
    }
  }
}
