/** Running one action: validate, bump the sequence, run on a cache, then sync the cache or drop it. */
module Execution {
  import opened GoTypes
  import opened Wire
  import opened Actions
  import opened Stores
  import opened KV
  import opened Merkle
  import opened State
  import Form
  import L = Ledger
  import S = StackModel

  method RunCreateAccount(cache: State, acc: Account) returns (res: L.Outcome)
    requires cache.Valid() && acc.pubKey.Some?
    modifies cache.store.Repr()
    ensures cache.Valid() && fresh(cache.store.Repr() - old(cache.store.Repr()))
    ensures res == L.OK
    ensures cache.store.Abs() ==
      S.Set(old(cache.store.Abs()), L.AccountKey(cache.env.address(old(acc.pubKey.value))),
            Data(cache.env.encAccount(Some(old(acc.Val())))))
  {
    var addr := cache.env.address(acc.pubKey.value);
    cache.SetAccount(addr, acc);
    return L.OK;
  }

  method RunRemoveAccount(cache: State, acc: Account) returns (res: L.Outcome)
    requires cache.Valid() && acc.pubKey.Some?
    modifies cache.store.Repr()
    ensures cache.Valid() && fresh(cache.store.Repr() - old(cache.store.Repr()))
    ensures res == L.OK
    ensures cache.store.Abs() ==
      S.Set(old(cache.store.Abs()), L.AccountKey(cache.env.address(old(acc.pubKey.value))),
            Data(cache.env.encAccount(None)))
  {
    var addr := cache.env.address(acc.pubKey.value);
    cache.SetAccount(addr, null);
    return L.OK;
  }

  /** The writes of a submitted form, first its content ID and then its account. */
  function SubmitWrites(env: L.Env, s: S.Stack, acc: L.Account, info: Form.Info, cid: Bytes): S.Stack
    requires acc.pubKey.Some?
  {
    S.Set(S.Set(s, info.formID, Data(cid)), L.AccountKey(env.address(acc.pubKey.value)),
          Data(env.encAccount(Some(L.WithForm(acc, info)))))
  }

  method RunSubmitForm(state: State, acc: Account, data: Bytes) returns (res: L.Outcome)
    requires state.Valid() && acc.pubKey.Some?
    requires acc !in state.store.Repr()
    modifies state.store.Repr(), state.filters, acc`formIDs
    ensures state.Valid() && fresh(state.store.Repr() - old(state.store.Repr()))
    ensures state.filters == old(state.filters)
    ensures var l := L.Ledger(state.chainID, map[], old(state.filters.tables));
      res == L.RunSubmitForm(state.env, l, old(acc.Val()), data).1
    ensures res == L.OK ==>
      var info := state.env.decInfo(data).value;
      && state.store.Abs() == SubmitWrites(state.env, old(state.store.Abs()), old(acc.Val()), info,
                                           state.env.encCid(info.contentID).value)
      && state.filters.tables == L.FilterAdd(old(state.filters.tables), info.issue, info.formID)
    ensures res != L.OK ==>
      && state.filters.tables == old(state.filters.tables)
      && acc.Val() == old(acc.Val())
    ensures state.store.Abs().Layer? == old(state.store.Abs()).Layer?
    ensures state.store.Abs().Layer? ==> state.store.Abs().below == old(state.store.Abs()).below
  {
    hide S.Set, S.Reads, Cache.Valid, Cache.Abs, Client.Valid, MemStore.Valid, L.AccountKey, L.WithForm;
    forall s, k, v { S.SetStaysOnTop(s, k, v); }
    var info := state.env.decInfo(data);
    if info == None {
      return L.EncodingError;
    }
    var cid := state.env.encCid(info.value.contentID);
    if cid == None {
      return L.EncodingError;
    }
    state.Set(info.value.formID, cid.value);
    var ok := state.FilterAdd(info.value.formID, info.value.issue);
    if !ok {
      return L.Panic;
    }
    acc.AddformID(info.value);
    var addr := state.env.address(acc.pubKey.value);
    state.SetAccount(addr, acc);
    return L.OK;
  }

  method ValidateInputAdvanced(env: L.Env, acc: Account, signBytes: Bytes, input: ActionInput) returns (res: L.Outcome)
    ensures res == L.ValidateAdvanced(env, acc.Val(), signBytes, input.Val())
  {
    var current := acc.sequence;
    if current + 1 != input.sequence {
      return L.BaseInvalidSequence;
    }
    if acc.pubKey == None {
      return L.Panic;
    }
    if !env.verify(acc.pubKey.value, signBytes, input.signature) {
      return L.BaseInvalidSignature;
    }
    return L.OK;
  }

  /** The account an action runs on: a new one for a create, else the stored one with the input's key if it has one. */
  method InputAccount(state: State, action: Action) returns (res: L.Outcome, acc: Account?)
    requires state.Valid() && action.input != null
    requires action.input !in state.store.Repr()
    modifies state.store.Repr()
    ensures state.Valid() && fresh(state.store.Repr() - old(state.store.Repr()))
    ensures S.Reads(state.store.Abs()) == S.Reads(old(state.store.Abs()))
    ensures S.Clean(old(state.store.Abs())) ==> S.Clean(state.store.Abs())
    ensures var (r, a) := L.InputAccount(state.env, old(state.Abs()), action.Val());
      res == r && (res == L.OK ==> acc != null && fresh(acc) && acc !in state.store.Repr() && acc.Val() == a)
  {
    hide S.Reads, S.Clean, S.Levels, Linked, Lists, IndexOf, L.GetAccount;
    if action.typ == L.ACTION_CREATE_ACCOUNT {
      var username := [];
      var data := GetByteSlice(state.env.wire, action.data);
      if data != None {
        username := data.value.0;
      }
      acc := new Account(action.input.pubKey, username);
    } else {
      var ok;
      acc, ok := state.GetAccount(action.input.address);
      if !ok {
        return L.Panic, null;
      }
      if acc == null {
        return L.BaseUnknownAddress, null;
      }
      if action.input.pubKey != None {
        acc.pubKey := action.input.pubKey;
      }
    }
    return L.OK, acc;
  }

  /** `cache` is a state wrapped around `state`. */
  ghost predicate Wraps(cache: State, state: State)
    reads cache, cache.store.Object(), cache.store.Repr(), state
  {
    && cache.Valid() && cache.cache != null && cache.cache.store == state.store
    && cache.filters == state.filters && state !in cache.store.Repr()
    && (state.cache != null ==> state.store == CacheOf(state.cache))
  }

  /** What holds of a wrapped state holds of the one below it, whose store is one level down. */
  lemma WrappedIsValid(cache: State, state: State)
    requires Wraps(cache, state)
    ensures state.Valid() && state.store.Repr() <= cache.store.Repr()
    ensures cache.store.Abs() == S.Layer(cache.cache.kvm.list.entries, state.store.Abs())
  {
    var c := cache.cache;
    assert c.Valid() && cache.store.Repr() == c.Repr;
    assert cache.store.Abs() == c.Abs();
  }

  /** Runs a validated action on the cache of a wrapped state. */
  method RunOn(cache: State, action: Action, acc: Account) returns (res: L.Outcome)
    requires cache.Valid() && acc.pubKey.Some? && acc !in cache.store.Repr()
    requires L.Lawful(cache.env)
    requires cache.store.Abs().Layer? && cache.store.Abs().log == [] && S.Valid(cache.store.Abs())
    modifies cache.store.Repr(), cache.filters, acc`formIDs
    ensures cache.Valid() && fresh(cache.store.Repr() - old(cache.store.Repr()))
    ensures cache.store.Abs().Layer? && cache.store.Abs().below == old(cache.store.Abs()).below
    ensures var s := old(cache.store.Abs()).below;
      var (l, r) := L.RunAction(cache.env, L.Ledger(cache.chainID, S.Reads(s), old(cache.filters.tables)),
                                old(acc.Val()), old(action.Val()));
      && res == r && cache.filters.tables == l.filters && cache.chainID == l.chainID
      && (res == L.OK ==>
            && S.Reads(S.Sync(cache.store.Abs()).below) == l.view
            && (S.Clean(s) ==> S.Clean(S.Sync(cache.store.Abs()).below)))
      && (res != L.OK ==> l.view == S.Reads(s))
  {
    ghost var env, base, a := cache.env, cache.store.Abs().below, acc.Val();
    ghost var key := L.AccountKey(env.address(a.pubKey.value));
    assert cache.store.Abs() == S.Layer([], base);
    if action.typ == L.ACTION_CREATE_ACCOUNT {
      S.CommitOne(base, key, env.encAccount(Some(a)));
      res := RunCreateAccount(cache, acc);
    } else if action.typ == L.ACTION_REMOVE_ACCOUNT {
      S.CommitOne(base, key, env.encAccount(None));
      res := RunRemoveAccount(cache, acc);
    } else if action.typ == L.ACTION_SUBMIT_FORM {
      res := RunSubmitForm(cache, acc, action.data);
      if res == L.OK {
        ghost var info := env.decInfo(action.data).value;
        S.CommitTwo(base, info.formID, env.encCid(info.contentID).value, key,
                    env.encAccount(Some(L.WithForm(a, info))));
      }
    } else {
      res := L.UnknownRequest;
    }
  }

  /** Runs a validated action on a cache over the state, which is then synced, or dropped if the run failed. */
  method RunAndSync(state: State, action: Action, acc: Account) returns (res: L.Outcome)
    requires state.Valid() && L.Lawful(state.env)
    requires action.input != null && action.input !in state.store.Repr()
    requires acc.pubKey.Some? && acc !in state.store.Repr()
    modifies state.store.Repr(), state.filters, acc`formIDs
    ensures state.Valid() && fresh(state.store.Repr() - old(state.store.Repr()))
    ensures (state.Abs(), res) == L.RunAction(state.env, old(state.Abs()), old(acc.Val()), old(action.Val()))
    ensures S.Clean(old(state.store.Abs())) ==> S.Clean(state.store.Abs())
  {
    hide S.Reads, S.Clean, S.Valid, L.RunAction, L.Lawful, Linked, Lists, IndexOf;
    hide Cache.Valid, Cache.Abs, Client.Valid, MemStore.Valid;
    AbsIsValid(state.store);
    var accCopy := acc.Copy();
    var cache := state.CacheWrap();
    AbsIsValid(cache.store);
    assert Wraps(cache, state);
    res := RunOn(cache, action, acc);
    assert Wraps(cache, state);
    WrappedIsValid(cache, state);
    if res == L.Panic {
      return;
    }
    SyncOrDrop(cache, state, action.input.address, accCopy, res);
  }

  /** Syncs the cache after a success; after a failure writes the account into it and leaves it unsynced. */
  method SyncOrDrop(cache: State, ghost state: State, addr: Bytes, acc: Account, res: L.Outcome)
    requires Wraps(cache, state)
    modifies cache.store.Repr()
    ensures Wraps(cache, state) && state.Valid()
    ensures fresh(state.store.Repr() - old(cache.store.Repr()))
    ensures state.store.Abs() ==
            if res == L.OK then S.Sync(old(cache.store.Abs())).below else old(cache.store.Abs()).below
  {
    hide S.Reads, S.Clean, S.Valid, S.Set, S.Sync, Linked, Lists, IndexOf;
    WrappedIsValid(cache, state);
    if res == L.OK {
      cache.CacheSync();
    } else {
      forall k, v { S.SetStaysOnTop(cache.store.Abs(), k, v); }
      cache.SetAccount(addr, acc);
    }
    WrappedIsValid(cache, state);
  }

  /** Everything before the sequence is bumped; on success, the account to run on. */
  method ValidateAction(state: State, action: Action) returns (res: L.Outcome, acc: Account?)
    requires state.Valid()
    requires action.input == null || action.input !in state.store.Repr()
    modifies state.store.Repr(), if action.input == null then {} else {action.input}
    ensures state.Valid() && fresh(state.store.Repr() - old(state.store.Repr()))
    ensures action.Val() == old(action.Val()) && state.Abs() == old(state.Abs())
    ensures S.Clean(old(state.store.Abs())) ==> S.Clean(state.store.Abs())
    ensures res == L.Validate(state.env, old(state.Abs()), old(action.Val()))
    ensures res == L.OK ==>
      && action.input != null && acc != null && fresh(acc) && acc !in state.store.Repr()
      && acc.Val() == L.InputAccount(state.env, old(state.Abs()), old(action.Val())).1
      && acc.pubKey.Some?
  {
    hide S.Reads, S.Clean, Cache.Valid, Cache.Abs, Client.Valid, MemStore.Valid;
    hide L.SignBytes, L.ValidateBasic, L.InputAccount;
    if state.chainID == [] || action.input == null {
      return L.Panic, null;
    }
    res := action.input.ValidateBasic();
    if res != L.OK {
      return res, null;
    }
    res, acc := InputAccount(state, action);
    if res != L.OK {
      return res, null;
    }
    label found:
    var signBytes := action.SignBytes(state.env, state.chainID);
    assert state.store.Abs() == old@found(state.store.Abs());
    res := ValidateInputAdvanced(state.env, acc, signBytes, action.input);
  }

  /** Executes one action: the pure step in append mode, its validation alone in check mode. */
  method ExecuteAction(state: State, action: Action, isCheckTx: bool) returns (res: L.Outcome)
    requires state.Valid() && L.Lawful(state.env)
    requires action.input == null || action.input !in state.store.Repr()
    modifies state.store.Repr(), state.filters, if action.input == null then {} else {action.input}
    ensures state.Valid() && fresh(state.store.Repr() - old(state.store.Repr()))
    ensures !isCheckTx ==> (state.Abs(), res) == L.Step(state.env, old(state.Abs()), old(action.Val()))
    ensures isCheckTx ==> state.Abs() == old(state.Abs()) &&
                          res == L.Validate(state.env, old(state.Abs()), old(action.Val()))
    ensures action.Val() == old(action.Val())
    ensures S.Clean(old(state.store.Abs())) ==> S.Clean(state.store.Abs())
  {
    hide S.Reads, S.Clean, L.RunAction, L.Validate, L.InputAccount;
    var found: Account?;
    res, found := ValidateAction(state, action);
    if res != L.OK {
      return;
    }
    var acc: Account := found;
    if isCheckTx {
      return L.OK;
    }
    label bumping:
    acc.sequence := acc.sequence + 1;
    assert state.Valid() && state.store.Abs() == old@bumping(state.store.Abs());
    res := RunAndSync(state, action, acc);
  }
}
