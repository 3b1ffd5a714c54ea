/** The stores: an in-memory map, a Merkle client, and a write-back cache over any store. */
module Stores {
  import opened GoTypes
  import opened WriteLog
  import opened Hex
  import opened KV
  import opened Merkle
  import S = StackModel

  class MemStore {
    var m: map<Bytes, Value>
    ghost var view: View
    /** The writes asked of this store, in order. */
    ghost var writes: Log

    /** The hex-keyed map behaves as a map keyed by raw bytes. */
    ghost predicate Valid()
      reads this
    {
      forall k :: Read(view, k) == if BytesToHexstr(k) in m then m[BytesToHexstr(k)] else Nil
    }

    constructor ()
      ensures Valid() && view == map[]
    {
      m, view, writes := map[], map[], [];
    }

    method Set(key: Bytes, value: Value)
      requires Valid()
      modifies this
      ensures Valid() && view == Put(old(view), key, value)
      ensures writes == old(writes) + [Write(key, value)]
    {
      forall k | BytesToHexstr(k) == BytesToHexstr(key) ensures k == key {
        HexInjective(k, key);
      }
      m := m[BytesToHexstr(key) := value];
      view, writes := Put(view, key, value), writes + [Write(key, value)];
    }

    method Get(key: Bytes) returns (value: Value)
      requires Valid()
      ensures value == Read(view, key)
    {
      var keystr := BytesToHexstr(key);
      return if keystr in m then m[keystr] else Nil;
    }
  }

  /** The stores a cache or a state can sit on. */
  datatype Store = MemStoreOf(mem: MemStore) | ClientOf(client: Client) | CacheOf(cache: Cache) {

    function Object(): object {
      match this
      case MemStoreOf(mem) => mem
      case ClientOf(client) => client
      case CacheOf(cache) => cache
    }

    ghost function Repr(): set<object>
      reads Object()
    {
      match this
      case MemStoreOf(mem) => {mem}
      case ClientOf(client) => {client, client.merk}
      case CacheOf(cache) => cache.Repr
    }

    ghost predicate Valid()
      reads Object(), Repr()
      ensures Valid() ==> Object() in Repr()
      decreases Repr(), 1
    {
      match this
      case MemStoreOf(mem) => mem.Valid()
      case ClientOf(client) => client.Valid()
      case CacheOf(cache) => cache.Valid()
    }

    /** The stack of stores this one is the top of. */
    ghost function Abs(): (s: S.Stack)
      requires Valid()
      reads Object(), Repr()
      decreases Repr(), 1
    {
      match this
      case MemStoreOf(mem) => S.Base(mem.view, false)
      case ClientOf(client) => S.Base(client.View(), true)
      case CacheOf(cache) => cache.Abs()
    }

    /** The writes asked of this store so far, in order. */
    ghost function Writes(): Log
      reads Object()
    {
      match this
      case MemStoreOf(mem) => mem.writes
      case ClientOf(client) => client.writes
      case CacheOf(cache) => cache.writes
    }

    method Get(key: Bytes) returns (value: Value)
      requires Valid()
      modifies Repr()
      ensures Valid() && fresh(Repr() - old(Repr()))
      ensures (Abs(), value) == S.Get(old(Abs()), key)
      decreases Repr(), 2
    {
      match this
      case MemStoreOf(mem) => value := mem.Get(key);
      case ClientOf(client) => value := client.Get(key);
      case CacheOf(cache) => value := cache.Get(key);
    }

    method Set(key: Bytes, value: Value)
      requires Valid()
      modifies Repr()
      ensures Valid() && fresh(Repr() - old(Repr()))
      ensures Abs() == S.Set(old(Abs()), key, value)
      ensures Writes() == old(Writes()) + [Write(key, value)]
    {
      match this
      case MemStoreOf(mem) => mem.Set(key, value);
      case ClientOf(client) => client.Set(key, value);
      case CacheOf(cache) => cache.Set(key, value);
    }
  }

  class Cache {
    var kvm: KVMap
    const store: Store
    ghost var writes: Log
    ghost var Repr: set<object>

    ghost predicate Valid()
      reads this, Repr
      ensures Valid() ==> this in Repr
      decreases Repr, 0
    {
      && this in Repr
      && kvm in Repr && kvm.Repr <= Repr && this !in kvm.Repr
      && store.Object() in Repr && store.Repr() <= Repr && this !in store.Repr()
      && kvm.Repr !! store.Repr()
      && kvm.Valid() && store.Valid()
    }

    ghost function Abs(): (s: S.Stack)
      requires Valid()
      reads this, Repr
      ensures s.Layer?
      decreases Repr, 0
    {
      S.Layer(kvm.list.entries, store.Abs())
    }

    constructor (store: Store)
      requires store.Valid()
      ensures Valid() && this.store == store && fresh(Repr - store.Repr())
      ensures Abs() == S.Layer([], store.Abs())
      ensures kvm.history == []
    {
      this.store := store;
      kvm := new KVMap();
      writes := [];
      new;
      Repr := {this} + kvm.Repr + store.Repr();
    }

    method Reset()
      requires Valid()
      modifies this
      ensures Valid() && fresh(Repr - old(Repr))
      ensures Abs() == S.Layer([], old(store.Abs()))
      ensures kvm.history == []
    {
      kvm := new KVMap();
      Repr := {this} + kvm.Repr + store.Repr();
    }

    method Set(key: Bytes, value: Value)
      requires Valid()
      modifies Repr
      ensures Valid() && fresh(Repr - old(Repr))
      ensures Abs() == S.Set(old(Abs()), key, value)
      ensures kvm.history == old(kvm.history) + [Write(key, value)]
      ensures writes == old(writes) + [Write(key, value)]
      ensures store.Abs() == old(store.Abs()) && store.Repr() == old(store.Repr())
    {
      kvm.Set(key, value);
      writes := writes + [Write(key, value)];
      Repr := Repr + kvm.Repr;
    }

    /** A cached nil counts as a miss; a miss is filled with what the store below reads. */
    method Get(key: Bytes) returns (value: Value)
      requires Valid()
      modifies Repr
      ensures Valid() && fresh(Repr - old(Repr))
      ensures (Abs(), value) == S.Get(old(Abs()), key)
      ensures kvm.history == old(kvm.history) +
                             if Lookup(old(kvm.history), key) == Nil then [Write(key, value)] else []
      decreases Repr, 1
    {
      hide Linked, Lists, IndexOf, LastWrites, Lookup, Rewrite;
      value := kvm.Get(key);
      if value != Nil {
        return;
      }
      value := Fetch(key);
      Set(key, value);
    }

    /** Reads the store below. */
    method Fetch(key: Bytes) returns (value: Value)
      requires Valid()
      modifies this`Repr, store.Repr()
      ensures Valid() && fresh(Repr - old(Repr))
      ensures kvm.list.entries == old(kvm.list.entries) && kvm.history == old(kvm.history)
      ensures (store.Abs(), value) == S.Get(old(store.Abs()), key)
      decreases Repr, 0
    {
      hide Linked, Lists, IndexOf, LastWrites;
      value := store.Get(key);
      Repr := Repr + store.Repr();
    }

    /** Writes the store below. */
    method WriteThrough(key: Bytes, value: Value)
      requires Valid()
      modifies this`Repr, store.Repr()
      ensures Valid() && fresh(Repr - old(Repr))
      ensures kvm.list == old(kvm.list)
      ensures kvm.list.entries == old(kvm.list.entries) && kvm.list.nodes == old(kvm.list.nodes)
      ensures store.Abs() == S.Set(old(store.Abs()), key, value)
      ensures store.Writes() == old(store.Writes()) + [Write(key, value)]
    {
      hide Linked, Lists, IndexOf, LastWrites;
      store.Set(key, value);
      Repr := Repr + store.Repr();
    }

    /** Writes every entry to the store below, in list order, and starts an empty log. */
    method Sync()
      requires Valid()
      modifies Repr
      ensures Valid() && fresh(Repr - old(Repr))
      ensures Abs() == S.Sync(old(Abs()))
      ensures kvm.history == []
      ensures store.Writes() == old(store.Writes()) + LastWrites(old(kvm.history))
      ensures old(Abs()).log == LastWrites(old(kvm.history))
      ensures store.Abs() == S.SetAll(old(store.Abs()), old(kvm.history))
    {
      hide Linked, IndexOf, LastWrites, S.SetAll, S.Set, S.Valid, Flushed;
      ghost var log, nodes, i := kvm.list.entries, kvm.list.nodes, 0;
      ghost var was, before := store.Abs(), store.Writes();
      AbsIsValid(store);
      FlushedNone(was, before, log);
      var kvn := kvm.list.head;
      while kvn != null
        invariant 0 <= i <= |nodes| == |log|
        invariant kvn == if i < |nodes| then nodes[i] else null
        invariant kvm == old(kvm) && kvm.list == old(kvm.list) && kvm.list.nodes == nodes
        invariant kvm.list.entries == log
        invariant Valid() && fresh(Repr - old(Repr))
        invariant Flushed(was, before, log, i, store.Abs(), store.Writes())
        decreases |nodes| - i
      {
        kvm.list.NodeAt(i);
        FlushedNext(was, before, log, i, store.Abs(), store.Writes());
        WriteThrough(kvn.key, kvn.value);
        kvn := kvn.next;
        i := i + 1;
      }
      FlushedLog(was, before, log, old(kvm.history), store.Abs(), store.Writes());
      Reset();
    }
  }

  /** The store below, `now`, has taken the first `i` entries of a log on top of `was`, one write each. */
  ghost predicate Flushed(was: S.Stack, before: Log, log: Log, i: nat, now: S.Stack, writes: Log) {
    i <= |log| && now == S.SetAll(was, log[..i]) && writes == before + log[..i]
  }

  lemma FlushedNone(was: S.Stack, before: Log, log: Log)
    ensures Flushed(was, before, log, 0, was, before)
  {
  }

  lemma FlushedNext(was: S.Stack, before: Log, log: Log, i: nat, now: S.Stack, writes: Log)
    requires i < |log| && Flushed(was, before, log, i, now, writes)
    ensures Flushed(was, before, log, i + 1, S.Set(now, log[i].key, log[i].value), writes + [log[i]])
  {
    assert log[..i + 1] == log[..i] + [log[i]];
    SetAllSnoc(was, log[..i], log[i]);
  }

  /** Having taken the whole compacted log, it is what the full history would have made it. */
  lemma FlushedLog(was: S.Stack, before: Log, log: Log, history: Log, now: S.Stack, writes: Log)
    requires S.Valid(was) && log == LastWrites(history)
    requires Flushed(was, before, log, |log|, now, writes)
    ensures now == S.SetAll(was, log) == S.SetAll(was, history) && writes == before + LastWrites(history)
  {
    assert log[..|log|] == log;
    S.SyncReplaysHistory(was, history);
  }

  /** The stack a well-formed store stands for is well formed. */
  lemma {:induction false} AbsIsValid(s: Store)
    requires s.Valid()
    ensures S.Valid(s.Abs())
    decreases s.Repr()
  {
    match s
    case MemStoreOf(_) =>
    case ClientOf(_) =>
    case CacheOf(cache) =>
      cache.kvm.KeysAreDistinct();
      AbsIsValid(cache.store);
  }

  lemma {:induction false} SetAllSnoc(s: S.Stack, h: Log, w: Write)
    ensures S.SetAll(s, h + [w]) == S.Set(S.SetAll(s, h), w.key, w.value)
    decreases h
  {
    if h == [] {
      assert [w][1..] == [];
    } else {
      assert (h + [w])[1..] == h[1..] + [w];
      SetAllSnoc(S.Set(s, h[0].key, h[0].value), h[1..], w);
    }
  }
}
