/** What holds over runs of actions of any length, and exactly where it ends. */
module Runs {
  import opened GoTypes
  import opened Hex
  import opened Ledger
  import Form

  // ---------- Keys ----------

  /** A key under which the account of a 20-byte address is stored. */
  predicate IsAccountKey(k: Bytes) {
    |k| == |ACCOUNT_PREFIX| + ADDRESS_LENGTH && k[..|ACCOUNT_PREFIX|] == ACCOUNT_PREFIX
  }

  lemma AccountKeyIs(addr: Bytes)
    requires |addr| == ADDRESS_LENGTH
    ensures IsAccountKey(AccountKey(addr))
  {
  }

  lemma AccountKeyInjective(a: Bytes, b: Bytes)
    requires AccountKey(a) == AccountKey(b)
    ensures a == b
  {
    assert AccountKey(a)[|ACCOUNT_PREFIX|..] == a;
    assert AccountKey(b)[|ACCOUNT_PREFIX|..] == b;
  }

  /** A 16-byte form identifier is never the key of an account. */
  lemma KeysNeverCollide(formID: Bytes, addr: Bytes)
    requires |formID| == Form.FORM_ID_LENGTH && |addr| == ADDRESS_LENGTH
    ensures !IsAccountKey(formID) && formID != AccountKey(addr)
  {
  }

  lemma GetAfterSet(env: Env, view: View, at: Bytes, acc: Option<Account>, addr: Bytes)
    requires Lawful(env)
    ensures GetAccount(env, SetAccount(env, view, at, acc), addr) ==
            if addr != at then GetAccount(env, view, addr)
            else if acc == None then Missing else Found(acc.value)
  {
    if AccountKey(addr) == AccountKey(at) {
      AccountKeyInjective(addr, at);
    }
    assert env.decAccount(env.encAccount(acc)) == Some(acc) && env.encAccount(acc) != [];
  }

  /** There is an account where what is stored decodes as one; there is none where nothing or the empty slice is
      stored, or what decodes as no account. */
  lemma AccountReadsExactly(env: Env, view: View, addr: Bytes)
    ensures var k := AccountKey(addr);
      && (forall acc :: GetAccount(env, view, addr) == Found(acc) <==>
            k in view && view[k] != [] && env.decAccount(view[k]) == Some(Some(acc)))
      && (GetAccount(env, view, addr) == Missing <==>
            k in view ==> view[k] == [] || env.decAccount(view[k]) == Some(None))
  {
  }

  // ---------- One step ----------

  predicate At(a: Action, addr: Bytes) {
    a.input.Some? && a.input.value.address == addr
  }

  /** The address an accepted action runs under, which is that of the key it is verified with and need
      not be the one it names. */
  function RunAddress(env: Env, l: Ledger, a: Action): Option<Bytes> {
    if Step(env, l, a).1 != OK then None
    else
      var key := Bumped(env, l, a).pubKey;
      if key.None? then None else Some(env.address(key.value))
  }

  /** Action `a` stores a form under `formID`. */
  predicate Submits(env: Env, l: Ledger, a: Action, formID: Bytes) {
    && Step(env, l, a).1 == OK && a.typ == ACTION_SUBMIT_FORM
    && env.decInfo(a.data).Some? && env.decInfo(a.data).value.formID == formID
  }

  /** What a submit stores under its form's identifier. */
  function Content(env: Env, a: Action): Bytes {
    match env.decInfo(a.data)
    case None => []
    case Some(info) =>
      match env.encCid(info.contentID)
      case None => []
      case Some(cid) => cid
  }

  /** The form is stored over the account of an address the action does not run under. */
  predicate Overwrites(env: Env, l: Ledger, a: Action, addr: Bytes) {
    Submits(env, l, a, AccountKey(addr)) && RunAddress(env, l, a) != Some(addr)
  }

  /** What any action does to the account at any address. */
  function AccountAfter(env: Env, l: Ledger, a: Action, addr: Bytes): Found {
    if RunAddress(env, l, a) == Some(addr) then
      if a.typ == ACTION_REMOVE_ACCOUNT then Missing
      else if a.typ == ACTION_CREATE_ACCOUNT || env.decInfo(a.data).None? then Found(Bumped(env, l, a))
      else Found(WithForm(Bumped(env, l, a), env.decInfo(a.data).value))
    else if Overwrites(env, l, a, addr) then AccountIn(env, Data(Content(env, a)))
    else GetAccount(env, l.view, addr)
  }

  /** An accepted action runs under some address of 20 bytes, at the sequence it carries. */
  lemma RunsUnderAnAddress(env: Env, l: Ledger, a: Action)
    requires Lawful(env) && Step(env, l, a).1 == OK
    ensures a.input.Some? && |a.input.value.address| == ADDRESS_LENGTH
    ensures Bumped(env, l, a).pubKey.Some? && Bumped(env, l, a).sequence == a.input.value.sequence
    ensures RunAddress(env, l, a).Some? && |RunAddress(env, l, a).value| == ADDRESS_LENGTH
  {
  }

  /** A step changes the account at the address it runs under, as `AccountAfter` says, one that it stores
      its form over, and no other. */
  lemma StepOnAccount(env: Env, l: Ledger, a: Action, addr: Bytes)
    requires Lawful(env)
    ensures GetAccount(env, Step(env, l, a).0.view, addr) == AccountAfter(env, l, a, addr)
  {
    if Step(env, l, a).1 == OK {
      RunsUnderAnAddress(env, l, a);
      hide Lawful, Validate;
      var acc, at := Bumped(env, l, a), RunAddress(env, l, a).value;
      if a.typ == ACTION_CREATE_ACCOUNT {
        GetAfterSet(env, l.view, at, Some(acc), addr);
      } else if a.typ == ACTION_REMOVE_ACCOUNT {
        GetAfterSet(env, l.view, at, None, addr);
      } else {
        var info := env.decInfo(a.data).value;
        var formed := l.view[info.formID := Content(env, a)];
        GetAfterSet(env, formed, at, Some(WithForm(acc, info)), addr);
      }
    }
  }

  /** A step that fails writes nothing; one that does not writes no key but that of the account it runs
      under and that of the form it submits. */
  lemma StepTouchesOnly(env: Env, l: Ledger, a: Action, k: Bytes)
    requires RunAddress(env, l, a).Some? ==> k != AccountKey(RunAddress(env, l, a).value)
    requires !Submits(env, l, a, k)
    ensures Read(Step(env, l, a).0.view, k) == Read(l.view, k)
  {
  }

  predicate Stores(view: View, k: Bytes) {
    k in view && view[k] != []
  }

  /** What a step stores a value under. */
  predicate Writes(env: Env, l: Ledger, a: Action, k: Bytes) {
    Submits(env, l, a, k) || (RunAddress(env, l, a).Some? && k == AccountKey(RunAddress(env, l, a).value))
  }

  /** No step takes a key away or empties one, and it stores values under the keys it writes only. */
  lemma StoredExactly(env: Env, l: Ledger, a: Action, k: Bytes)
    requires Lawful(env)
    ensures Stores(Step(env, l, a).0.view, k) <==> Stores(l.view, k) || Writes(env, l, a, k)
  {
    if Submits(env, l, a, k) {
      assert env.encCid(env.decInfo(a.data).value.contentID) != Some([]);
    }
    if Step(env, l, a).1 == OK {
      RunsUnderAnAddress(env, l, a);
    }
  }

  // ---------- Accounts that fit their address ----------

  /** An account, where there is one, decodes, and its key has the address. */
  predicate Fits(env: Env, f: Found, addr: Bytes) {
    match f
    case Missing => true
    case Corrupt => false
    case Found(acc) => acc.pubKey.Some? && env.address(acc.pubKey.value) == addr
  }

  predicate AccountFits(env: Env, view: View, addr: Bytes) {
    Fits(env, GetAccount(env, view, addr), addr)
  }

  ghost predicate AccountsFit(env: Env, l: Ledger) {
    forall addr {:trigger AccountFits(env, l.view, addr)} ::
      |addr| == ADDRESS_LENGTH ==> AccountFits(env, l.view, addr)
  }

  /** The step stores a form over the account of `addr`, and the content ID is no account of that address. */
  predicate Spoils(env: Env, l: Ledger, a: Action, addr: Bytes) {
    Overwrites(env, l, a, addr) && !Fits(env, AccountIn(env, Data(Content(env, a))), addr)
  }

  ghost predicate SpoilsNone(env: Env, l: Ledger, a: Action) {
    forall addr {:trigger Spoils(env, l, a, addr)} :: |addr| == ADDRESS_LENGTH ==> !Spoils(env, l, a, addr)
  }

  /** An account that fits its address does so after a step exactly when the step does not spoil it. */
  lemma AccountFitsExactly(env: Env, l: Ledger, a: Action, addr: Bytes)
    requires Lawful(env) && AccountFits(env, l.view, addr)
    ensures AccountFits(env, Step(env, l, a).0.view, addr) <==> !Spoils(env, l, a, addr)
  {
    StepOnAccount(env, l, a, addr);
    hide Lawful, Step, GetAccount, AccountIn;
  }

  lemma AccountsFitExactly(env: Env, l: Ledger, a: Action)
    requires Lawful(env) && AccountsFit(env, l)
    ensures AccountsFit(env, Step(env, l, a).0) <==> SpoilsNone(env, l, a)
  {
    var l' := Step(env, l, a).0;
    hide Step, Spoils, AccountFits, Lawful;
    forall addr | |addr| == ADDRESS_LENGTH
      ensures AccountFits(env, l'.view, addr) <==> !Spoils(env, l, a, addr)
    {
      assert AccountFits(env, l.view, addr);
      AccountFitsExactly(env, l, a, addr);
    }
  }

  /** A submitted form's identifier is not the key of an account. */
  predicate Spares(env: Env, a: Action) {
    a.typ == ACTION_SUBMIT_FORM && env.decInfo(a.data).Some? ==> !IsAccountKey(env.decInfo(a.data).value.formID)
  }

  predicate AllSpare(env: Env, acts: seq<Action>) {
    forall i :: 0 <= i < |acts| ==> Spares(env, acts[i])
  }

  lemma SparedIsNotOverwritten(env: Env, l: Ledger, a: Action, addr: Bytes)
    requires Spares(env, a) && |addr| == ADDRESS_LENGTH
    ensures !Overwrites(env, l, a, addr) && !Spoils(env, l, a, addr)
  {
    hide Step, RunAddress;
    AccountKeyIs(addr);
  }

  // ---------- Forms that are stored ----------

  /** Every form an account lists is stored under the key its identifier decodes to, with a value. */
  predicate FormsAreStored(view: View, acc: Account) {
    forall i :: 0 <= i < |acc.formIDs| ==> Stores(view, HexstrToBytes(acc.formIDs[i]))
  }

  predicate ListsStored(view: View, f: Found) {
    f.Found? ==> FormsAreStored(view, f.account)
  }

  ghost predicate ListedFormsAreStored(env: Env, l: Ledger) {
    forall addr {:trigger GetAccount(env, l.view, addr)} ::
      |addr| == ADDRESS_LENGTH ==> ListsStored(l.view, GetAccount(env, l.view, addr))
  }

  /** Every form the account lists is stored before the step or written by it. */
  predicate ListsWritten(env: Env, l: Ledger, a: Action, f: Found) {
    f.Found? ==>
      forall i :: 0 <= i < |f.account.formIDs| ==>
        var k := HexstrToBytes(f.account.formIDs[i]); Stores(l.view, k) || Writes(env, l, a, k)
  }

  lemma ListsStoredAfter(env: Env, l: Ledger, a: Action, f: Found)
    requires Lawful(env)
    ensures ListsStored(Step(env, l, a).0.view, f) <==> ListsWritten(env, l, a, f)
  {
    var view := Step(env, l, a).0.view;
    if f.Found? {
      forall i | 0 <= i < |f.account.formIDs|
        ensures var k := HexstrToBytes(f.account.formIDs[i]);
          Stores(view, k) <==> Stores(l.view, k) || Writes(env, l, a, k)
      {
        StoredExactly(env, l, a, HexstrToBytes(f.account.formIDs[i]));
      }
      hide Step, Stores, Writes, HexstrToBytes;
    }
  }

  /** The account an action runs on lists forms that are stored, and the one it adds. */
  lemma RunAccountLists(env: Env, l: Ledger, a: Action, addr: Bytes)
    requires Lawful(env) && ListedFormsAreStored(env, l) && RunAddress(env, l, a) == Some(addr)
    ensures ListsWritten(env, l, a, AccountAfter(env, l, a, addr))
  {
    RunsUnderAnAddress(env, l, a);
    var acc := Bumped(env, l, a);
    assert FormsAreStored(l.view, acc) by {
      assert ListsStored(l.view, GetAccount(env, l.view, a.input.value.address));
    }
    if a.typ == ACTION_SUBMIT_FORM {
      HexRoundTrip(env.decInfo(a.data).value.formID);
    }
    hide Lawful, ListedFormsAreStored, Stores, HexstrToBytes;
  }

  /** Where every listed form is stored, that is so after a step exactly when an account it stores its
      form over, if that decodes as one, lists only what is stored. */
  lemma ListedFormsExactly(env: Env, l: Ledger, a: Action)
    requires Lawful(env) && ListedFormsAreStored(env, l)
    ensures ListedFormsAreStored(env, Step(env, l, a).0) <==>
            forall addr {:trigger Overwrites(env, l, a, addr)} ::
              |addr| == ADDRESS_LENGTH && Overwrites(env, l, a, addr) ==>
                ListsWritten(env, l, a, AccountIn(env, Data(Content(env, a))))
  {
    var l' := Step(env, l, a).0;
    forall addr | |addr| == ADDRESS_LENGTH
      ensures ListsStored(l'.view, GetAccount(env, l'.view, addr)) <==>
              (Overwrites(env, l, a, addr) ==> ListsWritten(env, l, a, AccountIn(env, Data(Content(env, a)))))
    {
      ListedFormsAt(env, l, a, addr);
    }
    hide Step, Overwrites, ListsWritten, ListsStored, GetAccount, Lawful;
  }

  lemma ListedFormsAt(env: Env, l: Ledger, a: Action, addr: Bytes)
    requires Lawful(env) && ListedFormsAreStored(env, l) && |addr| == ADDRESS_LENGTH
    ensures var view := Step(env, l, a).0.view;
      ListsStored(view, GetAccount(env, view, addr)) <==>
      (Overwrites(env, l, a, addr) ==> ListsWritten(env, l, a, AccountIn(env, Data(Content(env, a)))))
  {
    StepOnAccount(env, l, a, addr);
    ListsStoredAfter(env, l, a, AccountAfter(env, l, a, addr));
    hide Step, Lawful, GetAccount, Stores, HexstrToBytes, Content;
    if RunAddress(env, l, a) == Some(addr) {
      RunAccountLists(env, l, a, addr);
    } else if !Overwrites(env, l, a, addr) {
      assert ListsStored(l.view, GetAccount(env, l.view, addr));
    }
  }

  // ---------- Runs ----------

  /** The ledger after the first `n` actions. */
  function After(env: Env, l: Ledger, acts: seq<Action>, n: nat): Ledger
    requires n <= |acts|
  {
    if n == 0 then l else Step(env, After(env, l, acts, n - 1), acts[n - 1]).0
  }

  /** How action `i` of the run ends. */
  function Ends(env: Env, l: Ledger, acts: seq<Action>, i: nat): Outcome
    requires i < |acts|
  {
    Step(env, After(env, l, acts, i), acts[i]).1
  }

  ghost predicate SpoilsNoneAt(env: Env, l: Ledger, acts: seq<Action>, i: nat)
    requires i < |acts|
  {
    SpoilsNone(env, After(env, l, acts, i), acts[i])
  }

  ghost predicate FitAt(env: Env, l: Ledger, acts: seq<Action>, m: nat)
    requires m <= |acts|
  {
    AccountsFit(env, After(env, l, acts, m))
  }

  /** Over a run of any actions every stored account keeps fitting its address exactly as long as no
      action of the run spoils one. */
  lemma {:induction false} RunFitsExactly(env: Env, l: Ledger, acts: seq<Action>, n: nat)
    requires Lawful(env) && AccountsFit(env, l) && n <= |acts|
    ensures (forall m :: 0 <= m <= n ==> FitAt(env, l, acts, m)) <==>
            (forall i :: 0 <= i < n ==> SpoilsNoneAt(env, l, acts, i))
  {
    hide Step, AccountsFit, SpoilsNone, Lawful;
    if n == 0 {
      assert FitAt(env, l, acts, 0);
    } else {
      RunFitsExactly(env, l, acts, n - 1);
      if FitAt(env, l, acts, n - 1) {
        AccountsFitExactly(env, After(env, l, acts, n - 1), acts[n - 1]);
        assert SpoilsNoneAt(env, l, acts, n - 1) <==> FitAt(env, l, acts, n);
      }
    }
  }

  /** In every reachable ledger every stored account fits its address, whatever the actions, if no form
      takes the key of an account for its identifier. */
  lemma {:induction false} RunKeepsAccounts(env: Env, l: Ledger, acts: seq<Action>, n: nat)
    requires Lawful(env) && AccountsFit(env, l) && AllSpare(env, acts) && n <= |acts|
    ensures AccountsFit(env, After(env, l, acts, n))
  {
    if n > 0 {
      RunKeepsAccounts(env, l, acts, n - 1);
      var was, a := After(env, l, acts, n - 1), acts[n - 1];
      AccountsFitExactly(env, was, a);
      forall addr | |addr| == ADDRESS_LENGTH ensures !Spoils(env, was, a, addr) {
        SparedIsNotOverwritten(env, was, a, addr);
      }
      hide Step, AccountsFit, Spares, Spoils, Lawful;
    }
  }

  /** In every reachable ledger every listed form is stored, under the same condition. */
  lemma {:induction false} RunKeepsForms(env: Env, l: Ledger, acts: seq<Action>, n: nat)
    requires Lawful(env) && ListedFormsAreStored(env, l) && AllSpare(env, acts) && n <= |acts|
    ensures ListedFormsAreStored(env, After(env, l, acts, n))
  {
    if n > 0 {
      RunKeepsForms(env, l, acts, n - 1);
      var was, a := After(env, l, acts, n - 1), acts[n - 1];
      ListedFormsExactly(env, was, a);
      forall addr | |addr| == ADDRESS_LENGTH ensures !Overwrites(env, was, a, addr) {
        SparedIsNotOverwritten(env, was, a, addr);
      }
      hide Step, ListedFormsAreStored, Spares, Overwrites, Lawful;
    }
  }

  predicate Accepted(env: Env, l: Ledger, acts: seq<Action>, addr: Bytes, i: nat)
    requires i < |acts|
  {
    Ends(env, l, acts, i) == OK && At(acts[i], addr)
  }

  function AccountAt(env: Env, l: Ledger, acts: seq<Action>, addr: Bytes, n: nat): Found
    requires n <= |acts|
  {
    GetAccount(env, After(env, l, acts, n).view, addr)
  }

  // ---------- Filters ----------

  /** The form an accepted action adds for the issue, if it submits one for it. */
  function AddsFor(env: Env, l: Ledger, a: Action, issue: Bytes): seq<Bytes> {
    if Step(env, l, a).1 != OK || a.typ != ACTION_SUBMIT_FORM then []
    else
      match env.decInfo(a.data)
      case None => []
      case Some(info) => if info.issue == issue then [info.formID] else []
  }

  /** The forms added for the issue by the first `n` actions, in order. */
  function AddedFor(env: Env, l: Ledger, acts: seq<Action>, issue: Bytes, n: nat): seq<Bytes>
    requires n <= |acts|
  {
    if n == 0 then []
    else AddedFor(env, l, acts, issue, n - 1) + AddsFor(env, After(env, l, acts, n - 1), acts[n - 1], issue)
  }

  /** No action makes or drops a filter, and each filter takes what is submitted for its issue and nothing else. */
  lemma StepOnFilters(env: Env, l: Ledger, a: Action, issue: Bytes)
    ensures issue in Step(env, l, a).0.filters <==> issue in l.filters
    ensures issue in l.filters ==> Step(env, l, a).0.filters[issue] == l.filters[issue] + AddsFor(env, l, a, issue)
    ensures AddsFor(env, l, a, issue) != [] ==> issue in l.filters
  {
    hide Validate;
  }

  /** Over any run a filter holds what it held, and then exactly the forms submitted for its issue, in order. */
  lemma {:induction false} RunFiltersExactly(env: Env, l: Ledger, acts: seq<Action>, issue: Bytes, n: nat)
    requires n <= |acts|
    ensures issue in After(env, l, acts, n).filters <==> issue in l.filters
    ensures issue in l.filters ==>
              After(env, l, acts, n).filters[issue] == l.filters[issue] + AddedFor(env, l, acts, issue, n)
  {
    hide Step, AddsFor;
    if n > 0 {
      RunFiltersExactly(env, l, acts, issue, n - 1);
      StepOnFilters(env, After(env, l, acts, n - 1), acts[n - 1], issue);
    }
  }

  lemma {:induction false} AddedStays(env: Env, l: Ledger, acts: seq<Action>, issue: Bytes, i: nat, n: nat, data: Bytes)
    requires i < n <= |acts| && data in AddsFor(env, After(env, l, acts, i), acts[i], issue)
    ensures data in AddedFor(env, l, acts, issue, n)
    decreases n
  {
    hide AddsFor, Step, After;
    if i < n - 1 {
      AddedStays(env, l, acts, issue, i, n - 1, data);
    }
  }

  /** Once a form is submitted for an issue, the issue's filter finds it for good. */
  lemma SubmittedIsFound(env: Env, l: Ledger, acts: seq<Action>, i: nat, n: nat)
    requires Lawful(env) && i < n <= |acts|
    requires Ends(env, l, acts, i) == OK && acts[i].typ == ACTION_SUBMIT_FORM
    ensures env.decInfo(acts[i].data).Some?
    ensures var info := env.decInfo(acts[i].data).value;
      FilterFinds(env, After(env, l, acts, n).filters, info.issue, info.formID) == Some(true)
  {
    SubmitAdds(env, After(env, l, acts, i), acts[i]);
    hide Step, After, AddsFor, AddedFor, Lawful, FilterFinds;
    var info := env.decInfo(acts[i].data).value;
    AddedStays(env, l, acts, info.issue, i, n, info.formID);
    StepOnFilters(env, After(env, l, acts, i), acts[i], info.issue);
    RunFiltersExactly(env, l, acts, info.issue, i);
    RunFiltersExactly(env, l, acts, info.issue, n);
    InFilter(env, After(env, l, acts, n).filters, info.issue, info.formID);
  }

  lemma SubmitAdds(env: Env, l: Ledger, a: Action)
    requires Step(env, l, a).1 == OK && a.typ == ACTION_SUBMIT_FORM
    ensures env.decInfo(a.data).Some?
    ensures var info := env.decInfo(a.data).value; AddsFor(env, l, a, info.issue) == [info.formID]
  {
  }

  lemma InFilter(env: Env, filters: Filters, issue: Bytes, data: Bytes)
    requires Lawful(env) && issue in filters && data in filters[issue]
    ensures FilterFinds(env, filters, issue, data) == Some(true)
  {
  }

  // ---------- What a form holds ----------

  /** A submitted form holds its content ID, also after its account is stored. */
  lemma SubmitWrites(env: Env, l: Ledger, a: Action, formID: Bytes)
    requires Lawful(env) && Submits(env, l, a, formID) && !IsAccountKey(formID)
    ensures Read(Step(env, l, a).0.view, formID) == Data(Content(env, a))
  {
    RunsUnderAnAddress(env, l, a);
    AccountKeyIs(RunAddress(env, l, a).value);
  }

  predicate SubmitsAt(env: Env, l: Ledger, acts: seq<Action>, formID: Bytes, i: nat)
    requires i < |acts|
  {
    Submits(env, After(env, l, acts, i), acts[i], formID)
  }

  /** A form holds the content ID of the last action that submitted it, whatever else runs, if its
      identifier is not the key of an account. */
  lemma {:induction false} FormHoldsLastSubmit(env: Env, l: Ledger, acts: seq<Action>, formID: Bytes, i: nat, n: nat)
    requires Lawful(env) && !IsAccountKey(formID)
    requires i < n <= |acts| && SubmitsAt(env, l, acts, formID, i)
    requires forall j :: i < j < n ==> !SubmitsAt(env, l, acts, formID, j)
    ensures Read(After(env, l, acts, n).view, formID) == Data(Content(env, acts[i]))
    decreases n
  {
    hide Step, Lawful, Submits, Content, Read, IsAccountKey;
    if n == i + 1 {
      SubmitWrites(env, After(env, l, acts, i), acts[i], formID);
    } else {
      FormHoldsLastSubmit(env, l, acts, formID, i, n - 1);
      assert !SubmitsAt(env, l, acts, formID, n - 1);
      OthersSpareForm(env, After(env, l, acts, n - 1), acts[n - 1], formID);
    }
  }

  /** An action that does not submit the form leaves it as it is. */
  lemma OthersSpareForm(env: Env, l: Ledger, a: Action, formID: Bytes)
    requires Lawful(env) && !IsAccountKey(formID) && !Submits(env, l, a, formID)
    ensures Read(Step(env, l, a).0.view, formID) == Read(l.view, formID)
  {
    if RunAddress(env, l, a).Some? {
      RunsUnderAnAddress(env, l, a);
      AccountKeyIs(RunAddress(env, l, a).value);
    }
    hide Step, Lawful, Submits, RunAddress;
    StepTouchesOnly(env, l, a, formID);
  }

  // ---------- Genesis ----------

  function GenesisAll(env: Env, l: Ledger, accs: seq<Account>): Ledger
    requires forall i :: 0 <= i < |accs| ==> accs[i].pubKey.Some?
  {
    if accs == [] then l else Genesis(env, GenesisAll(env, l, accs[..|accs| - 1]), accs[|accs| - 1])
  }

  /** Genesis accounts on an empty store fit; if they list no forms, every listed form is stored. */
  lemma {:induction false} GenesisFits(env: Env, l: Ledger, accs: seq<Account>)
    requires Lawful(env) && l.view == map[]
    requires forall i :: 0 <= i < |accs| ==> accs[i].pubKey.Some?
    ensures AccountsFit(env, GenesisAll(env, l, accs))
    ensures (forall i :: 0 <= i < |accs| ==> accs[i].formIDs == []) ==>
              ListedFormsAreStored(env, GenesisAll(env, l, accs))
  {
    if accs != [] {
      var acc, rest := accs[|accs| - 1], accs[..|accs| - 1];
      var was := GenesisAll(env, l, rest);
      GenesisFits(env, l, rest);
      var at := env.address(acc.pubKey.value);
      forall addr | |addr| == ADDRESS_LENGTH
        ensures GetAccount(env, GenesisAll(env, l, accs).view, addr) ==
                if addr == at then Found(acc) else GetAccount(env, was.view, addr)
        ensures AccountFits(env, GenesisAll(env, l, accs).view, addr)
      {
        assert AccountFits(env, was.view, addr);
        GetAfterSet(env, was.view, at, Some(acc), addr);
      }
      if forall i :: 0 <= i < |accs| ==> accs[i].formIDs == [] {
        assert forall i :: 0 <= i < |rest| ==> rest[i] == accs[i];
      }
    }
  }
}
