/** The application: transactions in, results out, over a Merkle client. */
module App {
  import opened GoTypes
  import opened Merkle
  import opened Actions
  import opened Stores
  import opened State
  import opened Execution
  import L = Ledger
  import B = Building
  import S = StackModel
  import R = Runs
  import P = Search
  import F = Finding
  import opened Query
  import opened Tree
  import opened Wire

  const SLASH: byte := 0x2F

  /** "chainID", "issue" and "account". */
  const KEY_CHAIN_ID: Bytes := [0x63, 0x68, 0x61, 0x69, 0x6E, 0x49, 0x44]
  const KEY_ISSUE: Bytes := [0x69, 0x73, 0x73, 0x75, 0x65]
  const KEY_ACCOUNT: Bytes := [0x61, 0x63, 0x63, 0x6F, 0x75, 0x6E, 0x74]

  /** Splits at the first slash; without one there is no suffix. */
  function SplitKey(key: Bytes): (Bytes, Bytes) {
    if key == [] then ([], [])
    else if key[0] == SLASH then ([], key[1..])
    else
      var (prefix, suffix) := SplitKey(key[1..]);
      ([key[0]] + prefix, suffix)
  }

  /** The prefix holds no slash; with a slash the two parts and it make the key, else the key is the prefix. */
  lemma {:induction false} SplitKeyJoins(key: Bytes)
    ensures var (prefix, suffix) := SplitKey(key);
      && SLASH !in prefix
      && key == (if SLASH in key then prefix + [SLASH] + suffix else prefix)
      && (SLASH !in key ==> suffix == [])
  {
    if key != [] && key[0] != SLASH {
      SplitKeyJoins(key[1..]);
      assert key == [key[0]] + key[1..];
      assert SLASH in key <==> SLASH in key[1..];
    } else if key != [] {
      assert key == [] + [SLASH] + key[1..];
    }
  }

  class App {
    const cli: Client
    const state: State
    const readAccount: Bytes -> Option<L.Account>
    var cache: State?
    var issues: seq<Bytes>

    ghost predicate Valid()
      reads this, state, state.store.Object(), state.store.Repr()
    {
      && state.Valid() && state.store == ClientOf(cli) && L.Lawful(state.env)
      && this !in state.store.Repr()
    }

    constructor (cli: Client, env: L.Env, readAccount: Bytes -> Option<L.Account>)
      requires cli.Valid() && L.Lawful(env)
      ensures Valid() && this.cli == cli && state.env == env && issues == []
      ensures state.Abs() == L.Ledger([], cli.View(), map[])
    {
      this.cli, this.readAccount, cache, issues := cli, readAccount, null, [];
      state := new State(env, ClientOf(cli));
    }

    method SetFilters()
      requires Valid()
      modifies state`filters
      ensures Valid() && state.Abs() == old(state.Abs()).(filters := map n | n in issues :: [])
    {
      state.SetFilters(issues);
    }

    /** Sets an option by the part of its key behind the first slash. */
    method SetOption(key: Bytes, value: Bytes) returns (res: L.Outcome)
      requires Valid()
      modifies this`issues, state`chainID, state.store.Repr()
      ensures Valid()
      ensures var suffix := SplitKey(key).1;
        var l, env := old(state.Abs()), state.env;
        if suffix == KEY_CHAIN_ID then
          res == L.OK && state.Abs() == l.(chainID := value) && issues == old(issues)
        else if suffix == KEY_ISSUE then
          res == L.OK && state.Abs() == l && issues == old(issues) + [value]
        else if suffix == KEY_ACCOUNT && readAccount(value).Some? && readAccount(value).value.pubKey.Some? then
          res == L.OK && state.Abs() == L.Genesis(env, l, readAccount(value).value) && issues == old(issues)
        else res != L.OK && state.Abs() == l && issues == old(issues)
    {
      var (_, suffix) := SplitKey(key);
      if suffix == KEY_CHAIN_ID {
        state.SetChainID(value);
        return L.OK;
      } else if suffix == KEY_ISSUE {
        issues := issues + [value];
        return L.OK;
      } else if suffix == KEY_ACCOUNT {
        var decoded := readAccount(value);
        if decoded == None {
          return L.EncodingError;
        }
        if decoded.value.pubKey == None {
          return L.Panic;
        }
        var acc := new Account.Decoded(decoded.value);
        var addr := state.env.address(acc.pubKey.value);
        AbsIsValid(state.store);
        S.SetReads(state.store.Abs(), L.AccountKey(addr), Data(state.env.encAccount(Some(acc.Val()))));
        state.SetAccount(addr, acc);
        return L.OK;
      }
      return L.UnknownRequest;
    }

    /** A cache over the state; nothing reads or syncs it. */
    method BeginBlock()
      requires Valid()
      modifies this`cache
      ensures Valid() && state.Abs() == old(state.Abs())
      ensures cache != null && fresh(cache) && cache.Valid() && cache.cache != null
      ensures cache.cache.store == state.store && cache.store.Abs() == S.Layer([], state.store.Abs())
      ensures cache.filters == state.filters && cache.chainID == state.chainID
    {
      cache := state.CacheWrap();
    }

    /** The producer's loop: asks for the size, then for the key at every index, and sends each on. */
    method IterQuery() returns (sent: seq<Bytes>)
      requires Valid() && IsInt(|cli.merk.tree|)
      ensures sent == Keys(cli.merk.tree)
    {
      F.SizeQueryReads(cli.w, cli.merk.tree, cli.merk.prove);
      var result := cli.QuerySync(EmptyQuery(QUERY_SIZE));
      var size := cli.w.get(result.data.bytes).value.0;
      sent := [];
      for i := 0 to size
        invariant sent == Keys(cli.merk.tree)[..i]
      {
        F.IndexQueryReads(cli.w, cli.merk.tree, cli.merk.prove, i);
        var query := IndexQuery(cli.w, i);
        result := cli.QuerySync(query.bytes);
        sent := sent + [result.data.bytes];
      }
    }

    /** The tree behind the client holds every key of the ledger. */
    lemma TreeHoldsLedger()
      requires Valid()
      ensures F.HoldsKeys(cli.merk.tree, state.Abs().view)
    {
      F.TreeHoldsItsReads(cli.merk.tree);
    }

    /** After any run of actions, a form that was submitted in it for an issue is in the result of every
        search of the application's own tree for the issue that the second check lets it through. */
    lemma SubmittedFormIsFound(
      start: L.Ledger, acts: seq<L.Action>, i: nat, check: Bytes -> Option<bool>, moves: seq<P.Move>)
      requires Valid() && state.Abs() == R.After(state.env, start, acts, |acts|)
      requires i < |acts| && R.Ends(state.env, start, acts, i) == L.OK && acts[i].typ == L.ACTION_SUBMIT_FORM
      ensures state.env.decInfo(acts[i].data).Some?
      ensures var info := state.env.decInfo(acts[i].data).value;
        var c := F.SearchFor(state.env, state.filters.tables, info.issue, cli.merk.tree, check);
        var end := P.Run(c, P.Start(), moves);
        check(info.formID) == Some(true) && end.Some? && end.value.returned ==> info.formID in end.value.datas
    {
      hide L.Lawful, L.Step, P.Run, R.After;
      TreeHoldsLedger();
      R.SubmittedIsFound(state.env, start, acts, i, |acts|);
      if check(state.env.decInfo(acts[i].data).value.formID) == Some(true) {
        F.SubmittedFormIsFound(state.env, start, acts, i, |acts|, cli.merk.tree, check, moves);
      }
    }

    method AppendTx(tx: Bytes) returns (res: L.Outcome)
      requires Valid()
      modifies state.store.Repr(), state.filters
      ensures Valid()
      ensures match state.env.decAction(tx)
              case None => res == L.BaseEncodingError && state.Abs() == old(state.Abs())
              case Some(a) => (state.Abs(), res) == L.Step(state.env, old(state.Abs()), a)
    {
      var decoded := state.env.decAction(tx);
      if decoded == None {
        return L.BaseEncodingError;
      }
      var action := Decoded(decoded.value);
      res := ExecuteAction(state, action, false);
    }

    method CheckTx(tx: Bytes) returns (res: L.Outcome)
      requires Valid()
      modifies state.store.Repr(), state.filters
      ensures Valid() && state.Abs() == old(state.Abs())
      ensures match state.env.decAction(tx)
              case None => res == L.BaseEncodingError
              case Some(a) => res == L.Validate(state.env, old(state.Abs()), a)
    {
      var decoded := state.env.decAction(tx);
      if decoded == None {
        return L.BaseEncodingError;
      }
      var action := Decoded(decoded.value);
      res := ExecuteAction(state, action, true);
    }

    /** Builds an action, prepares it for sequence `n`, signs it, and appends its bytes. */
    method BuildAndAppend(typ: byte, data: Bytes, privKey: L.PrivKey, n: int) returns (res: L.Outcome)
      requires Valid()
      modifies state.store.Repr(), state.filters
      ensures Valid()
      ensures (state.Abs(), res) ==
        L.Step(state.env, old(state.Abs()), B.Built(state.env, state.chainID, typ, data, privKey, n))
    {
      var env := state.env;
      var action := NewAction(typ, data);
      action.Prepare(env, env.publicOf(privKey), n);
      action.Sign(env, privKey, state.chainID);
      var tx := action.Tx(env);
      res := AppendTx(tx);
    }
  }

  method Decoded(a: L.Action) returns (action: Action)
    ensures action.Val() == a && (action.input != null ==> fresh(action.input))
  {
    if a.input == None {
      return Action(a.typ, null, a.data);
    }
    var input := new ActionInput.Decoded(a.input.value);
    return Action(a.typ, input, a.data);
  }
}
