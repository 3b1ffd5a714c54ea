/** The state over a store, and the execution of one action through a cache. */
module State {
  import opened GoTypes
  import opened Actions
  import opened Stores
  import opened KV
  import opened WriteLog
  import L = Ledger
  import S = StackModel

  /** The hash tables by issue. States share them by reference. */
  class Filters {
    var tables: L.Filters

    constructor ()
      ensures tables == map[]
    {
      tables := map[];
    }

    constructor Named(names: seq<Bytes>)
      ensures tables == map n | n in names :: []
    {
      tables := map n | n in names :: [];
    }
  }

  class State {
    const env: L.Env
    const store: Store
    const cache: Cache?
    var chainID: Bytes
    var filters: Filters

    ghost function Repr(): set<object>
      reads store.Object()
    {
      {this} + store.Repr()
    }

    ghost predicate Valid()
      reads this, store.Object(), store.Repr()
    {
      && store.Valid()
      && this !in store.Repr() && filters !in store.Repr()
      && (cache != null ==> store == CacheOf(cache))
    }

    /** The flat ledger this state stands for. */
    ghost function Abs(): L.Ledger
      requires Valid()
      reads this, filters, store.Object(), store.Repr()
    {
      L.Ledger(chainID, S.Reads(store.Abs()), filters.tables)
    }

    constructor (env: L.Env, store: Store)
      requires store.Valid()
      ensures Valid() && this.env == env && this.store == store && fresh(filters)
      ensures Abs() == L.Ledger([], S.Reads(store.Abs()), map[])
    {
      this.env, this.store, cache, chainID := env, store, null, [];
      filters := new Filters();
    }

    /** A state over a fresh cache, with this state's filters. */
    constructor Wrapped(env: L.Env, cache: Cache, chainID: Bytes, filters: Filters)
      requires cache.Valid() && filters !in cache.Repr
      ensures Valid()
      ensures this.env == env && this.store == CacheOf(cache) && this.cache == cache
      ensures this.chainID == chainID && this.filters == filters
    {
      this.env, this.store, this.cache := env, CacheOf(cache), cache;
      this.chainID, this.filters := chainID, filters;
    }

    method SetChainID(chainID: Bytes)
      requires Valid()
      modifies this`chainID
      ensures Valid() && Abs() == old(Abs()).(chainID := chainID)
    {
      this.chainID := chainID;
    }

    method SetFilters(names: seq<Bytes>)
      requires Valid()
      modifies this`filters
      ensures Valid() && Abs() == old(Abs()).(filters := map n | n in names :: [])
    {
      filters := new Filters.Named(names);
    }

    method Set(key: Bytes, value: Bytes)
      requires Valid()
      modifies store.Repr()
      ensures Valid() && fresh(store.Repr() - old(store.Repr()))
      ensures store.Abs() == S.Set(old(store.Abs()), key, Data(value))
    {
      store.Set(key, Data(value));
    }

    /** The account at an address, null if there is none; `ok` is false where decoding panics. */
    method GetAccount(addr: Bytes) returns (acc: Account?, ok: bool)
      requires Valid()
      modifies store.Repr()
      ensures Valid() && fresh(store.Repr() - old(store.Repr()))
      ensures S.Reads(store.Abs()) == S.Reads(old(store.Abs()))
      ensures S.Levels(store.Abs()) == S.Levels(old(store.Abs()))
      ensures S.Clean(old(store.Abs())) ==> S.Clean(store.Abs())
      ensures match L.GetAccount(env, S.Reads(old(store.Abs())), addr)
              case Missing => ok && acc == null
              case Corrupt => !ok
              case Found(a) => ok && acc != null && fresh(acc) && acc.Val() == a && acc !in store.Repr()
    {
      hide S.Get, S.Reads, S.Valid, S.Levels, S.Clean, Linked, Lists, IndexOf, LastWrites, L.AccountKey;
      AbsIsValid(store);
      S.GetIsTransparent(store.Abs(), L.AccountKey(addr));
      if S.Clean(store.Abs()) {
        S.GetStaysClean(store.Abs(), L.AccountKey(addr));
      }
      var data := store.Get(L.AccountKey(addr));
      if data == Nil || data == Data([]) {
        return null, true;
      }
      var decoded := env.decAccount(data.bytes);
      if decoded == None {
        return null, false;
      }
      if decoded.value == None {
        return null, true;
      }
      acc := new Account.Decoded(decoded.value.value);
      return acc, true;
    }

    /** Stores an account, or what encodes the absence of one. */
    method SetAccount(addr: Bytes, acc: Account?)
      requires Valid()
      modifies store.Repr()
      ensures Valid() && fresh(store.Repr() - old(store.Repr()))
      ensures store.Abs() ==
        S.Set(old(store.Abs()), L.AccountKey(addr),
              Data(env.encAccount(if acc == null then None else Some(old(acc.Val())))))
    {
      var accBytes := env.encAccount(if acc == null then None else Some(acc.Val()));
      store.Set(L.AccountKey(addr), Data(accBytes));
    }

    method FilterAdd(data: Bytes, name: Bytes) returns (ok: bool)
      modifies filters
      ensures ok == L.FilterAdds(env, old(filters.tables), name, data)
      ensures filters.tables == if ok then L.FilterAdd(old(filters.tables), name, data) else old(filters.tables)
    {
      if name !in filters.tables {
        return false;
      }
      var success := env.adds(filters.tables[name], data);
      if !success {
        return false;
      }
      filters.tables := filters.tables[name := filters.tables[name] + [data]];
      return true;
    }

    /** Finds whatever was added to the named filter; errs, which is where `Filterfunc` panics, exactly
        if there is no such filter. */
    method FilterLookup(data: Bytes, name: Bytes) returns (found: Option<bool>)
      ensures L.Lawful(env) && name in filters.tables && data in filters.tables[name] ==> found == Some(true)
      ensures found == None <==> name !in filters.tables
      ensures found == L.FilterFinds(env, filters.tables, name, data)
    {
      if name !in filters.tables {
        return None;
      }
      return Some(env.finds(filters.tables[name], data));
    }

    method CacheWrap() returns (snew: State)
      requires Valid()
      ensures snew.Valid() && fresh(snew) && fresh(snew.store.Repr() - store.Repr())
      ensures snew.env == env && snew.chainID == chainID && snew.filters == filters
      ensures snew.cache != null && snew.cache.store == store
      ensures snew.store.Abs() == S.Layer([], store.Abs())
    {
      var c := new Cache(store);
      snew := new State.Wrapped(env, c, chainID, filters);
    }

    method CacheSync()
      requires Valid() && cache != null
      modifies store.Repr()
      ensures Valid() && fresh(store.Repr() - old(store.Repr()))
      ensures store.Abs() == S.Sync(old(store.Abs()))
      ensures cache.Valid() && cache.store.Valid() && store.Abs() == S.Layer([], cache.store.Abs())
      ensures cache.store.Repr() <= store.Repr()
    {
      cache.Sync();
    }
  }
}
