/** Inputs at which the conditions of the run properties are needed. */
module Limits {
  import opened GoTypes
  import opened Ledger
  import opened Runs
  import opened Sequences
  import opened Building
  import opened Consistency
  import Form

  const CHAIN: Bytes := [1]
  const ONE := PrivKey([1])
  const OTHER := PrivKey([2])

  function NewAccount(p: PrivKey): Account {
    Account([], Some(PubKey(p.bytes)), 0, [])
  }

  /** Two accounts at sequence zero, as a genesis makes them, and a filter for one issue. */
  ghost function TwoAccounts(issue: Bytes): Ledger {
    GenesisAll(Sample(), Ledger(CHAIN, map[], map[issue := []]), [NewAccount(ONE), NewAccount(OTHER)])
  }

  ghost function AddressOfPriv(p: PrivKey): Bytes {
    Sample().address(Sample().publicOf(p))
  }

  lemma AddressesDiffer()
    ensures |AddressOfPriv(ONE)| == ADDRESS_LENGTH && |AddressOfPriv(OTHER)| == ADDRESS_LENGTH
    ensures AddressOfPriv(ONE) != AddressOfPriv(OTHER)
  {
    assert AddressOfPriv(ONE)[0] == 1 && AddressOfPriv(OTHER)[0] == 2;
  }

  lemma TwoGenesisAccounts(env: Env, l: Ledger, x: Account, y: Account)
    requires Lawful(env) && l.view == map[] && x.pubKey.Some? && y.pubKey.Some?
    requires env.address(x.pubKey.value) != env.address(y.pubKey.value) && x.formIDs == y.formIDs == []
    ensures var l' := GenesisAll(env, l, [x, y]);
      && l'.chainID == l.chainID && l'.filters == l.filters
      && AccountsFit(env, l') && ListedFormsAreStored(env, l')
      && GetAccount(env, l'.view, env.address(x.pubKey.value)) == Found(x)
      && GetAccount(env, l'.view, env.address(y.pubKey.value)) == Found(y)
  {
    var atX, atY := env.address(x.pubKey.value), env.address(y.pubKey.value);
    assert [x][..0] == [] && [x, y][..1] == [x];
    GenesisFits(env, l, [x, y]);
    hide Lawful, GetAccount, AccountsFit, ListedFormsAreStored;
    var first := GenesisAll(env, l, [x]);
    assert GenesisAll(env, l, []) == l && first == Genesis(env, l, x);
    assert GenesisAll(env, l, [x, y]) == Genesis(env, first, y);
    GetAfterSet(env, l.view, atX, Some(x), atX);
    GetAfterSet(env, first.view, atY, Some(y), atX);
    GetAfterSet(env, first.view, atY, Some(y), atY);
  }

  lemma TwoAccountsAre(issue: Bytes)
    ensures var l := TwoAccounts(issue);
      && l.chainID == CHAIN && l.filters == map[issue := []]
      && AccountsFit(Sample(), l) && ListedFormsAreStored(Sample(), l)
      && GetAccount(Sample(), l.view, AddressOfPriv(ONE)) == Found(NewAccount(ONE))
      && GetAccount(Sample(), l.view, AddressOfPriv(OTHER)) == Found(NewAccount(OTHER))
  {
    SampleIsLawful();
    AddressesDiffer();
    hide Lawful, GetAccount, AccountsFit, ListedFormsAreStored, AddressOf;
    TwoGenesisAccounts(Sample(), Ledger(CHAIN, map[], map[issue := []]), NewAccount(ONE), NewAccount(OTHER));
  }

  /** The accepted action leaves an account of the address that does not decode, and every action that asks
      for it then ends in a panic. */
  ghost predicate Corrupts(env: Env, l: Ledger, a: Action, addr: Bytes) {
    && Step(env, l, a).1 == OK
    && var l' := Step(env, l, a).0;
      && GetAccount(env, l'.view, addr) == Corrupt
      && forall b: Action :: At(b, addr) && ValidateBasic(b.input.value) && b.typ != ACTION_CREATE_ACCOUNT ==>
           Step(env, l', b) == (l', Panic)
  }

  lemma CorruptPanics(env: Env, l: Ledger, addr: Bytes, b: Action)
    requires GetAccount(env, l.view, addr) == Corrupt && l.chainID != []
    requires At(b, addr) && ValidateBasic(b.input.value) && b.typ != ACTION_CREATE_ACCOUNT
    ensures Step(env, l, b) == (l, Panic)
  {
    hide GetAccount;
  }

  /** So does a submit stored over the account of an address it does not run under, if its content ID is
      not the encoding of an account. */
  lemma OverwritingCorrupts(env: Env, l: Ledger, a: Action, addr: Bytes)
    requires Lawful(env) && Overwrites(env, l, a, addr) && AccountIn(env, Data(Content(env, a))) == Corrupt
    ensures Corrupts(env, l, a, addr)
  {
    hide Lawful, GetAccount;
    StepOnAccount(env, l, a, addr);
    var l' := Step(env, l, a).0;
    forall b: Action | At(b, addr) && ValidateBasic(b.input.value) && b.typ != ACTION_CREATE_ACCOUNT
      ensures Step(env, l', b) == (l', Panic)
    {
      CorruptPanics(env, l', addr, b);
    }
  }

  /** A submit built for the next sequence is accepted like any other when its form identifier is the key
      of another address. */
  lemma SubmitOverAnother(env: Env, l: Ledger, addr: Bytes, p: PrivKey, data: Bytes)
    requires Lawful(env) && l.chainID != [] && addr != env.address(env.publicOf(p))
    requires GetAccount(env, l.view, env.address(env.publicOf(p))).Found?
    requires var acc := GetAccount(env, l.view, env.address(env.publicOf(p))).account;
      acc.sequence == 0 || (acc.sequence > 0 && acc.pubKey == Some(env.publicOf(p)))
    requires SubmitRuns(env, l, data) && env.decInfo(data).value.formID == AccountKey(addr)
    requires AccountIn(env, Data(env.encCid(env.decInfo(data).value.contentID).value)) == Corrupt
    ensures var acc := GetAccount(env, l.view, env.address(env.publicOf(p))).account;
      Corrupts(env, l, Built(env, l.chainID, ACTION_SUBMIT_FORM, data, p, acc.sequence + 1), addr)
  {
    hide Lawful, GetAccount, SignBytes, Corrupts;
    var n := GetAccount(env, l.view, env.address(env.publicOf(p))).account.sequence + 1;
    BuiltIsAcceptedExactly(env, l, ACTION_SUBMIT_FORM, data, p, n);
    OverwritingCorrupts(env, l, Built(env, l.chainID, ACTION_SUBMIT_FORM, data, p, n), addr);
  }

  lemma SampleOverwrites(l: Ledger, b: Bytes)
    requires b in l.filters && b != [] && b[0] >= 4
    ensures SubmitRuns(Sample(), l, b) && Sample().decInfo(b).value.formID == b
    ensures AccountIn(Sample(), Data(Sample().encCid(Sample().decInfo(b).value.contentID).value)) == Corrupt
  {
    assert Sample().decInfo(b) == Some(Form.Info(b, b, b, b, b));
    NoAccountDecodes([1] + b);
  }

  /** Where every account fits, a submit is accepted that corrupts the account of another address. */
  lemma AccountIsOverwritten() returns (env: Env, l: Ledger, a: Action, addr: Bytes)
    ensures Lawful(env) && AccountsFit(env, l) && ListedFormsAreStored(env, l)
    ensures |addr| == ADDRESS_LENGTH && GetAccount(env, l.view, addr).Found? && Corrupts(env, l, a, addr)
  {
    hide Sample, Lawful, GetAccount, Corrupts, Built;
    addr := AddressOfPriv(OTHER);
    var formID := AccountKey(addr);
    env, l := Sample(), TwoAccounts(formID);
    a := Built(env, CHAIN, ACTION_SUBMIT_FORM, formID, ONE, 1);
    SampleIsLawful();
    TwoAccountsAre(formID);
    AddressesDiffer();
    SampleOverwrites(l, formID);
    SubmitOverAnother(env, l, addr, ONE, formID);
  }

  /** An action that names one address and carries the key of another, as at sequence one it may. */
  function Naming(env: Env, chainID: Bytes, typ: byte, data: Bytes, addr: Bytes, p: PrivKey): Action {
    var unsigned := Action(typ, Some(Input(addr, 1, None, Some(env.publicOf(p)))), data);
    unsigned.(input := Some(unsigned.input.value.(signature := Some(env.sign(p, SignBytes(env, chainID, unsigned))))))
  }

  /** Where the account it names is at sequence zero, it is accepted if its run has what it asks for, and runs
      under the address of its key. */
  lemma NamingIsAccepted(env: Env, l: Ledger, typ: byte, data: Bytes, addr: Bytes, p: PrivKey)
    requires Lawful(env) && l.chainID != [] && |addr| == ADDRESS_LENGTH && typ != ACTION_CREATE_ACCOUNT
    requires GetAccount(env, l.view, addr).Found? && GetAccount(env, l.view, addr).account.sequence == 0
    ensures var a := Naming(env, l.chainID, typ, data, addr, p);
      && (Step(env, l, a).1 == OK <==> Runnable(env, l, a))
      && (Step(env, l, a).1 == OK ==>
            && RunAddress(env, l, a) == Some(env.address(env.publicOf(p)))
            && Bumped(env, l, a) ==
               GetAccount(env, l.view, addr).account.(pubKey := Some(env.publicOf(p)), sequence := 1))
  {
    var a := Naming(env, l.chainID, typ, data, addr, p);
    var unsigned := a.(input := Some(a.input.value.(signature := None)));
    SignBytesIgnoreSignature(env, l.chainID, unsigned, a.input.value.signature);
    hide GetAccount, SignBytes;
  }

  /** A remove that names an account at sequence zero is accepted, and again right after. */
  lemma RemoveNamingRepeats(env: Env, l: Ledger, addr: Bytes, p: PrivKey)
    requires Lawful(env) && l.chainID != [] && |addr| == ADDRESS_LENGTH && addr != env.address(env.publicOf(p))
    requires GetAccount(env, l.view, addr).Found? && GetAccount(env, l.view, addr).account.sequence == 0
    ensures var a := Naming(env, l.chainID, ACTION_REMOVE_ACCOUNT, [], addr, p);
      Step(env, l, a).1 == OK && Step(env, Step(env, l, a).0, a).1 == OK
  {
    hide Lawful, GetAccount, Step;
    NamingIsAccepted(env, l, ACTION_REMOVE_ACCOUNT, [], addr, p);
    AcceptedAgainExactly(env, l, Naming(env, l.chainID, ACTION_REMOVE_ACCOUNT, [], addr, p));
  }

  /** Where every account fits, a remove is accepted twice in a row. */
  lemma RemoveIsAcceptedTwice() returns (env: Env, l: Ledger, a: Action)
    ensures Lawful(env) && AccountsFit(env, l) && ListedFormsAreStored(env, l)
    ensures a.typ == ACTION_REMOVE_ACCOUNT && Spares(env, a)
    ensures Step(env, l, a).1 == OK && Step(env, Step(env, l, a).0, a).1 == OK
  {
    env, l := Sample(), TwoAccounts([]);
    a := Naming(env, CHAIN, ACTION_REMOVE_ACCOUNT, [], AddressOfPriv(OTHER), ONE);
    SampleIsLawful();
    TwoAccountsAre([]);
    AddressesDiffer();
    hide Lawful, GetAccount, Step;
    RemoveNamingRepeats(env, l, AddressOfPriv(OTHER), ONE);
  }

  /** A submit that names an account at sequence zero puts that account, at sequence one and with the form,
      under the address of its own key, whatever is stored there. */
  lemma SubmitNamingRewinds(env: Env, l: Ledger, data: Bytes, addr: Bytes, p: PrivKey)
    requires Lawful(env) && l.chainID != [] && |addr| == ADDRESS_LENGTH && SubmitRuns(env, l, data)
    requires GetAccount(env, l.view, addr).Found? && GetAccount(env, l.view, addr).account.sequence == 0
    ensures var b := Naming(env, l.chainID, ACTION_SUBMIT_FORM, data, addr, p);
      var acc := GetAccount(env, l.view, addr).account.(pubKey := Some(env.publicOf(p)), sequence := 1);
      && Step(env, l, b).1 == OK && RunAddress(env, l, b) == Some(env.address(env.publicOf(p)))
      && GetAccount(env, Step(env, l, b).0.view, env.address(env.publicOf(p))) ==
         Found(WithForm(acc, env.decInfo(data).value))
  {
    var b := Naming(env, l.chainID, ACTION_SUBMIT_FORM, data, addr, p);
    hide Lawful, GetAccount, Step, WithForm, RunAddress;
    NamingIsAccepted(env, l, ACTION_SUBMIT_FORM, data, addr, p);
    StepOnAccount(env, l, b, env.address(env.publicOf(p)));
  }

  /** An account at sequence one takes a built submit at sequence two. A submit with its key that names an
      account at sequence zero then takes it back to sequence one, and the first is accepted again. */
  lemma RewoundAcceptsAgain(env: Env, l: Ledger, data: Bytes, named: Bytes, addr: Bytes, p: PrivKey)
    requires Lawful(env) && l.chainID != [] && |addr| == ADDRESS_LENGTH && addr != env.address(env.publicOf(p))
    requires GetAccount(env, l.view, env.address(env.publicOf(p))).Found?
    requires var own := GetAccount(env, l.view, env.address(env.publicOf(p))).account;
      own.sequence == 1 && own.pubKey == Some(env.publicOf(p))
    requires GetAccount(env, l.view, addr).Found? && GetAccount(env, l.view, addr).account.sequence == 0
    requires SubmitRuns(env, l, data) && env.decInfo(data).value.formID != AccountKey(addr)
    requires var a := Built(env, l.chainID, ACTION_SUBMIT_FORM, data, p, 2);
      var b := Naming(env, l.chainID, ACTION_SUBMIT_FORM, named, addr, p);
      var l' := Step(env, l, a).0;
      SubmitRuns(env, l', named) && SubmitRuns(env, Step(env, l', b).0, data)
    ensures var a := Built(env, l.chainID, ACTION_SUBMIT_FORM, data, p, 2);
      var b := Naming(env, l.chainID, ACTION_SUBMIT_FORM, named, addr, p);
      var l1 := Step(env, l, a).0;
      var l2 := Step(env, l1, b).0;
      && Step(env, l, a).1 == OK && Step(env, l1, b).1 == OK && Step(env, l2, a).1 == OK
      && GetAccount(env, l2.view, env.address(env.publicOf(p))).Found?
      && var own := GetAccount(env, l2.view, env.address(env.publicOf(p))).account;
        && own.sequence == 1
        && |own.formIDs| == |GetAccount(env, l.view, addr).account.formIDs| + 1
  {
    var a := Built(env, l.chainID, ACTION_SUBMIT_FORM, data, p, 2);
    var b := Naming(env, l.chainID, ACTION_SUBMIT_FORM, named, addr, p);
    BuiltIsAcceptedExactly(env, l, ACTION_SUBMIT_FORM, data, p, 2);
    var l1 := Step(env, l, a).0;
    assert RunAddress(env, l, a) == Some(env.address(env.publicOf(p)));
    StepOnAccount(env, l, a, addr);
    assert GetAccount(env, l1.view, addr) == GetAccount(env, l.view, addr) && l1.chainID == l.chainID;
    hide Lawful, GetAccount, Step, WithForm, RunAddress, SignBytes;
    SubmitNamingRewinds(env, l1, named, addr, p);
    BuiltIsAcceptedExactly(env, Step(env, l1, b).0, ACTION_SUBMIT_FORM, data, p, 2);
  }

  /** A built create leaves a new account at the address of its key, and that at any other as it was. */
  lemma CreateLeaves(env: Env, l: Ledger, p: PrivKey, addr: Bytes)
    requires Lawful(env) && l.chainID != [] && addr != env.address(env.publicOf(p))
    ensures var c := Built(env, l.chainID, ACTION_CREATE_ACCOUNT, [], p, 1);
      var (l', res) := Step(env, l, c);
      && res == OK && l'.chainID == l.chainID && l'.filters == l.filters
      && RunAddress(env, l, c) == Some(env.address(env.publicOf(p)))
      && GetAccount(env, l'.view, env.address(env.publicOf(p))) ==
         Found(Account([], Some(env.publicOf(p)), 1, Username(env, [])))
      && GetAccount(env, l'.view, addr) == GetAccount(env, l.view, addr)
  {
    var c := Built(env, l.chainID, ACTION_CREATE_ACCOUNT, [], p, 1);
    BuiltCreateIsAcceptedExactly(env, l, [], p, 1);
    StepOnAccount(env, l, c, env.address(env.publicOf(p)));
    StepOnAccount(env, l, c, addr);
    hide Lawful, GetAccount, SignBytes;
  }

  /** What the run of four shows: all are accepted, the last is the second again with no create in between, and
      before it the account is back at sequence one, with a form. */
  ghost predicate Rewinds(env: Env, l: Ledger, acts: seq<Action>, own: Bytes) {
    && |acts| == 4 && acts[1] == acts[3]
    && (forall k :: 0 <= k < 4 ==> Ends(env, l, acts, k) == OK)
    && Created(env, l, acts, own, 0) && NoCreate(env, l, acts, own, 1, 4)
    && AccountAt(env, l, acts, own, 3).Found?
    && var acc := AccountAt(env, l, acts, own, 3).account; acc.sequence == 1 && |acc.formIDs| == 1
  }

  lemma FourSteps(env: Env, l: Ledger, acts: seq<Action>)
    requires |acts| == 4
    ensures After(env, l, acts, 0) == l
    ensures forall k :: 0 <= k < 4 ==> After(env, l, acts, k + 1) == Step(env, After(env, l, acts, k), acts[k]).0
  {
  }

  /** A create, a submit, a submit that names another account, and the first submit again. */
  function RewindingActions(env: Env, chainID: Bytes, addr: Bytes, p: PrivKey): seq<Action> {
    var c := Built(env, chainID, ACTION_CREATE_ACCOUNT, [], p, 1);
    var a := Built(env, chainID, ACTION_SUBMIT_FORM, [], p, 2);
    [c, a, Naming(env, chainID, ACTION_SUBMIT_FORM, [], addr, p), a]
  }

  /** Empty data holds a form for an issue whose filter takes whatever it is given. */
  ghost predicate TakesEmpty(env: Env) {
    && env.decInfo([]).Some? && env.decInfo([]).value.formID == []
    && forall l: Ledger :: [] in l.filters ==> SubmitRuns(env, l, [])
  }

  lemma RewindingRun(env: Env, l: Ledger, addr: Bytes, p: PrivKey)
    requires Lawful(env) && l.chainID != [] && |addr| == ADDRESS_LENGTH && addr != env.address(env.publicOf(p))
    requires GetAccount(env, l.view, addr).Found?
    requires GetAccount(env, l.view, addr).account.sequence == 0 && GetAccount(env, l.view, addr).account.formIDs == []
    requires TakesEmpty(env) && [] in l.filters
    ensures Rewinds(env, l, RewindingActions(env, l.chainID, addr, p), env.address(env.publicOf(p)))
  {
    var acts := RewindingActions(env, l.chainID, addr, p);
    assert acts[0].typ == ACTION_CREATE_ACCOUNT && acts[1] == acts[3];
    assert forall k :: 1 <= k < 4 ==> acts[k].typ == ACTION_SUBMIT_FORM;
    hide Lawful, GetAccount, Step, RunAddress, Built, Naming, SubmitRuns;
    FourSteps(env, l, acts);
    CreateLeaves(env, l, p, addr);
    var l1 := Step(env, l, acts[0]).0;
    StepOnFilters(env, l1, acts[1], []);
    var l2 := Step(env, l1, acts[1]).0;
    StepOnFilters(env, l2, acts[2], []);
    assert SubmitRuns(env, Step(env, l2, acts[2]).0, []);
    RewoundAcceptsAgain(env, l1, [], [], addr, p);
  }

  lemma RewindingActionsAre(env: Env, chainID: Bytes, addr: Bytes, p: PrivKey)
    requires Lawful(env) && TakesEmpty(env)
    ensures var acts := RewindingActions(env, chainID, addr, p);
      && AllSpare(env, acts) && WellBuilt(env, acts[0]) && WellBuilt(env, acts[1])
      && At(acts[1], env.address(env.publicOf(p)))
  {
    hide Lawful, SignBytes, SubmitRuns;
  }

  lemma SampleTakesEmpty()
    ensures TakesEmpty(Sample())
  {
    assert Sample().decInfo([]) == Some(Form.Info([], [], [], [], []));
  }

  /** From a genesis where every account fits, with no form over an account, a well-built action is accepted
      twice with no create in between. */
  lemma OldActionIsAcceptedAgain() returns (env: Env, l: Ledger, acts: seq<Action>, own: Bytes)
    ensures Lawful(env) && AccountsFit(env, l) && ListedFormsAreStored(env, l) && AllSpare(env, acts)
    ensures Rewinds(env, l, acts, own) && WellBuilt(env, acts[0]) && WellBuilt(env, acts[1]) && At(acts[1], own)
  {
    hide Sample, Lawful, GetAccount, Rewinds, RewindingActions, TakesEmpty, WellBuilt;
    env, l, own := Sample(), TwoAccounts([]), AddressOfPriv(ONE);
    acts := RewindingActions(env, CHAIN, AddressOfPriv(OTHER), ONE);
    SampleIsLawful();
    SampleTakesEmpty();
    TwoAccountsAre([]);
    AddressesDiffer();
    RewindingActionsAre(env, CHAIN, AddressOfPriv(OTHER), ONE);
    RewindingRun(env, l, AddressOfPriv(OTHER), ONE);
  }
}
