/** A search over the tree behind the ledger: what it reads, and that it finds what was submitted. */
module Finding {
  import opened GoTypes
  import opened Ledger
  import opened Runs
  import opened Search
  import T = Tree
  import M = Merkle
  import Query
  import Wire

  /** The producer's size query reads the number of keys of the tree, also of an empty one. */
  lemma SizeQueryReads(w: Wire.Varints, t: T.Tree, prove: (T.Tree, Bytes) -> Option<Bytes>)
    requires Wire.Lawful(w)
    ensures var r := M.Answer(w, t, prove, Query.EmptyQuery(Query.QUERY_SIZE));
      r.code == M.OK && r.data.Data? && w.get(r.data.bytes) == Some((|T.Keys(t)|, |r.data.bytes|))
  {
    M.QueriesAnswer(w, t, prove, [], 0);
  }

  /** What `IndexQuery` builds for an index of the tree reads the key there. */
  lemma IndexQueryReads(w: Wire.Varints, t: T.Tree, prove: (T.Tree, Bytes) -> Option<Bytes>, i: nat)
    requires Wire.Lawful(w) && Wire.IsInt(i) && i < |T.Keys(t)|
    ensures var query := Query.IndexFrame(w, i);
      query.Data? && M.Answer(w, t, prove, query.bytes) == M.Result(M.OK, Data(T.Keys(t)[i]))
  {
    M.QueriesAnswer(w, t, prove, [], i);
  }

  /** The search for an issue over a tree: found by its filter, which panics if there is none, and passing a
      second check, which may. */
  function SearchFor(env: Env, filters: Filters, issue: Bytes, t: T.Tree, check: Bytes -> Option<bool>): Config {
    Config(T.Keys(t), d => FilterFinds(env, filters, issue, d), check)
  }

  lemma {:induction false} RunKeepsStored(env: Env, l: Ledger, acts: seq<Action>, k: Bytes, i: nat, n: nat)
    requires Lawful(env) && i <= n <= |acts| && Stores(After(env, l, acts, i).view, k)
    ensures Stores(After(env, l, acts, n).view, k)
    decreases n
  {
    hide Step, Stores, Lawful;
    if i < n {
      RunKeepsStored(env, l, acts, k, i, n - 1);
      StoredExactly(env, After(env, l, acts, n - 1), acts[n - 1], k);
    }
  }

  /** The tree holds every key that the ledger stores a value under. */
  ghost predicate HoldsKeys(t: T.Tree, view: View) {
    forall k {:trigger Stores(view, k)} :: Stores(view, k) ==> T.Find(t, k).Some?
  }

  /** A tree holds every key a client reads from it. */
  lemma TreeHoldsItsReads(t: T.Tree)
    ensures HoldsKeys(t, T.ReadsOf(t))
  {
    forall k | Stores(T.ReadsOf(t), k) ensures T.Find(t, k).Some? {
      T.ReadsOfFind(t, k);
    }
  }

  /** In every interleaving a search that has returned holds a key exactly if the tree does, the issue's
      filter finds it and the second check passes it. */
  lemma SearchFindsExactly(
    env: Env, filters: Filters, issue: Bytes, t: T.Tree, check: Bytes -> Option<bool>, moves: seq<Move>, k: Bytes)
    requires Run(SearchFor(env, filters, issue, t, check), Start(), moves).Some?
    requires Run(SearchFor(env, filters, issue, t, check), Start(), moves).value.returned
    ensures k in Run(SearchFor(env, filters, issue, t, check), Start(), moves).value.datas <==>
            T.Find(t, k).Some? && issue in filters && env.finds(filters[issue], k) && check(k) == Some(true)
  {
    var c := SearchFor(env, filters, issue, t, check);
    T.KeysAreFound(t, k);
    hide Run, T.Keys, T.Find, Want;
    SearchIsCorrect(c, moves);
    var at := WantIsExact(c);
    if k in Want(c, c.keys) {
      var j :| 0 <= j < |at| && Want(c, c.keys)[j] == k;
      assert at[j] in at;
    }
    if k in c.keys && Passes(c, k) {
      var i :| 0 <= i < |c.keys| && c.keys[i] == k;
      assert i in at;
      var j :| 0 <= j < |at| && at[j] == i;
      assert Want(c, c.keys)[j] == k;
    }
  }

  /** In every interleaving a search that cannot go on has panicked exactly if the tree has a key and the issue
      no filter, or the tree has a key that the filter finds and the second check gives no answer for; else it
      has returned. */
  lemma IssueSearchPanicsExactly(
    env: Env, filters: Filters, issue: Bytes, t: T.Tree, check: Bytes -> Option<bool>, moves: seq<Move>)
    requires Run(SearchFor(env, filters, issue, t, check), Start(), moves).Some?
    requires var c := SearchFor(env, filters, issue, t, check);
      forall m :: !Enabled(c, Run(c, Start(), moves).value, m)
    ensures var s := Run(SearchFor(env, filters, issue, t, check), Start(), moves).value;
      && (s.panicked <==>
            exists k :: k in T.Keys(t) &&
              (issue in filters ==> env.finds(filters[issue], k) && check(k) == None))
      && (s.returned <==> !s.panicked)
  {
    var c := SearchFor(env, filters, issue, t, check);
    SearchPanicsExactly(c, moves);
    assert forall k :: Answered(c, k) <==> !(issue in filters ==> env.finds(filters[issue], k) && check(k) == None);
    hide Run, Answered, Enabled;
  }

  lemma WantHolds(c: Config, i: nat)
    requires i < |c.keys| && Passes(c, c.keys[i])
    ensures c.keys[i] in Want(c, c.keys)
  {
    hide Want;
    var at := WantIsExact(c);
    assert i in at;
    var j :| 0 <= j < |at| && at[j] == i;
    assert Want(c, c.keys)[j] == c.keys[i];
  }

  /** A submitted form is a key of every later tree, and passes both checks. */
  lemma SubmittedPasses(env: Env, l: Ledger, acts: seq<Action>, i: nat, n: nat,
                        t: T.Tree, check: Bytes -> Option<bool>) returns (k: nat)
    requires Lawful(env) && i < n <= |acts|
    requires Ends(env, l, acts, i) == OK && acts[i].typ == ACTION_SUBMIT_FORM
    requires HoldsKeys(t, After(env, l, acts, n).view)
    requires env.decInfo(acts[i].data).Some? && check(env.decInfo(acts[i].data).value.formID) == Some(true)
    ensures var info := env.decInfo(acts[i].data).value;
      var c := SearchFor(env, After(env, l, acts, n).filters, info.issue, t, check);
      k < |c.keys| && c.keys[k] == info.formID && Passes(c, c.keys[k])
  {
    var info := env.decInfo(acts[i].data).value;
    RunStores(env, l, acts, i);
    hide Step, Ends, After, Stores;
    RunKeepsStored(env, l, acts, info.formID, i + 1, n);
    SubmittedIsFound(env, l, acts, i, n);
    k := T.FindIn(t, info.formID);
  }

  lemma RunStores(env: Env, l: Ledger, acts: seq<Action>, i: nat)
    requires Lawful(env) && i < |acts| && Ends(env, l, acts, i) == OK && acts[i].typ == ACTION_SUBMIT_FORM
    ensures env.decInfo(acts[i].data).Some?
    ensures Stores(After(env, l, acts, i + 1).view, env.decInfo(acts[i].data).value.formID)
  {
  }

  /** A form submitted for an issue is in the result of every later search for the issue that its second
      check lets through, whatever the interleaving of the search. */
  lemma SubmittedFormIsFound(env: Env, l: Ledger, acts: seq<Action>, i: nat, n: nat,
                             t: T.Tree, check: Bytes -> Option<bool>, moves: seq<Move>)
    requires Lawful(env) && i < n <= |acts|
    requires Ends(env, l, acts, i) == OK && acts[i].typ == ACTION_SUBMIT_FORM
    requires HoldsKeys(t, After(env, l, acts, n).view)
    requires env.decInfo(acts[i].data).Some? && check(env.decInfo(acts[i].data).value.formID) == Some(true)
    ensures var info := env.decInfo(acts[i].data).value;
      var c := SearchFor(env, After(env, l, acts, n).filters, info.issue, t, check);
      var end := Run(c, Start(), moves);
      end.Some? && end.value.returned ==> info.formID in end.value.datas
  {
    hide Step, Ends, After, Run, Lawful, Want, Passes, T.Keys, HoldsKeys;
    var k := SubmittedPasses(env, l, acts, i, n, t, check);
    var c := SearchFor(env, After(env, l, acts, n).filters, env.decInfo(acts[i].data).value.issue, t, check);
    WantHolds(c, k);
    if Run(c, Start(), moves).Some? {
      SearchIsCorrect(c, moves);
    }
  }
}
