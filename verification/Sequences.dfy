/** What becomes of the sequence and the forms of an account over runs, and exactly when. */
module Sequences {
  import opened GoTypes
  import opened Hex
  import opened Ledger
  import opened Runs
  import Form

  // ---------- What is followed of an account ----------

  /** Its sequence, by how much that is ahead of the number of its forms, or the sequence and the forms. */
  datatype Aspect = Sequence | Difference | History

  datatype Reading = NoAccount | Undecodable | Number(n: int) | Tally(n: int, formIDs: seq<Bytes>)

  function Gauge(s: Aspect, f: Found): Reading {
    match f
    case Missing => NoAccount
    case Corrupt => Undecodable
    case Found(acc) =>
      match s
      case Sequence => Number(acc.sequence)
      case Difference => Number(acc.sequence - |acc.formIDs|)
      case History => Tally(acc.sequence, acc.formIDs)
  }

  /** What a create starts with. */
  function Start(s: Aspect): Reading {
    if s == History then Tally(1, []) else Number(1)
  }

  /** What a submit makes of the account it is meant for. */
  function Added(s: Aspect, x: Reading, formID: Bytes): Reading {
    match x
    case Number(n) => if s == Sequence then Number(n + 1) else x
    case Tally(n, formIDs) => Tally(n + 1, formIDs + [BytesToHexstr(formID)])
    case _ => x
  }

  lemma AddedInjective(s: Aspect, x: Reading, y: Reading, formID: Bytes)
    requires Added(s, x, formID) == Added(s, y, formID)
    ensures x == y
  {
    if x.Tally? && y.Tally? {
      var id := [BytesToHexstr(formID)];
      assert (x.formIDs + id)[..|x.formIDs|] == x.formIDs && (y.formIDs + id)[..|y.formIDs|] == y.formIDs;
    }
  }

  /** A submit adds to whatever account it takes. */
  lemma GaugeAdds(s: Aspect, acc: Account, key: Option<PubKey>, info: Form.Info)
    ensures Gauge(s, Found(WithForm(acc.(pubKey := key, sequence := acc.sequence + 1), info))) ==
            Added(s, Gauge(s, Found(acc)), info.formID)
  {
  }

  // ---------- One step ----------

  function FormOf(env: Env, a: Action): Bytes {
    match env.decInfo(a.data) case None => [] case Some(info) => info.formID
  }

  /** The account at the address the action names. */
  function Named(env: Env, l: Ledger, a: Action): Found {
    match a.input case None => Missing case Some(i) => GetAccount(env, l.view, i.address)
  }

  /** What the action makes of a reading at `addr`, were it to run on the account of the address it runs under. */
  function Moved(env: Env, s: Aspect, l: Ledger, a: Action, addr: Bytes, x: Reading): Reading {
    if RunAddress(env, l, a) != Some(addr) then x
    else if a.typ == ACTION_CREATE_ACCOUNT then Start(s)
    else if a.typ == ACTION_REMOVE_ACCOUNT then NoAccount
    else Added(s, x, FormOf(env, a))
  }

  /** A submit running under `addr` that names an account of another reading, or a form stored over the
      account at `addr` that makes it another reading. */
  predicate Departs(env: Env, s: Aspect, l: Ledger, a: Action, addr: Bytes) {
    var own := Gauge(s, GetAccount(env, l.view, addr));
    if RunAddress(env, l, a) == Some(addr) then a.typ == ACTION_SUBMIT_FORM && Gauge(s, Named(env, l, a)) != own
    else Overwrites(env, l, a, addr) && Gauge(s, AccountIn(env, Data(Content(env, a)))) != own
  }

  /** An accepted action takes the account it names, at the sequence before the one it carries. */
  lemma TakesNamed(env: Env, l: Ledger, a: Action)
    requires Step(env, l, a).1 == OK && a.typ != ACTION_CREATE_ACCOUNT
    ensures a.input.Some? && Named(env, l, a).Found?
    ensures var acc := Named(env, l, a).account;
      && acc.sequence + 1 == a.input.value.sequence
      && Bumped(env, l, a) == WithInputKey(acc, a.input.value).(sequence := acc.sequence + 1)
  {
    hide GetAccount, SignBytes;
  }

  /** For any action and any address: what is followed of the account moves on as it ought to exactly when
      the action does not depart from it. */
  lemma MovesExactly(env: Env, s: Aspect, l: Ledger, a: Action, addr: Bytes)
    requires Lawful(env)
    ensures Gauge(s, GetAccount(env, Step(env, l, a).0.view, addr)) ==
            Moved(env, s, l, a, addr, Gauge(s, GetAccount(env, l.view, addr)))
            <==> !Departs(env, s, l, a, addr)
  {
    StepOnAccount(env, l, a, addr);
    if RunAddress(env, l, a) == Some(addr) {
      RunsUnderAnAddress(env, l, a);
      RunsByType(env, l, a);
      hide Lawful, GetAccount, Step, RunAddress, Overwrites, BytesToHexstr;
      if a.typ != ACTION_CREATE_ACCOUNT {
        TakesNamed(env, l, a);
      }
      if a.typ == ACTION_SUBMIT_FORM {
        var info := env.decInfo(a.data).value;
        var acc := Named(env, l, a).account;
        GaugeAdds(s, acc, Bumped(env, l, a).pubKey, info);
        var own := Gauge(s, GetAccount(env, l.view, addr));
        if Added(s, Gauge(s, Found(acc)), info.formID) == Added(s, own, info.formID) {
          AddedInjective(s, Gauge(s, Found(acc)), own, info.formID);
        }
      }
    }
  }

  /** What is accepted is a create of an account at sequence one, a remove, or a submit of a form that decodes. */
  lemma RunsByType(env: Env, l: Ledger, a: Action)
    requires RunAddress(env, l, a).Some?
    ensures Step(env, l, a).1 == OK && a.input.Some?
    ensures a.typ == ACTION_CREATE_ACCOUNT || a.typ == ACTION_REMOVE_ACCOUNT || a.typ == ACTION_SUBMIT_FORM
    ensures a.typ == ACTION_SUBMIT_FORM ==> env.decInfo(a.data).Some?
    ensures a.typ == ACTION_CREATE_ACCOUNT ==> Bumped(env, l, a).sequence == 1 && Bumped(env, l, a).formIDs == []
  {
    hide GetAccount, SignBytes;
  }

  /** A submit takes the sequence of the address it runs under on by one exactly when it carries the next. */
  lemma TakesNextExactly(env: Env, l: Ledger, a: Action, addr: Bytes)
    requires Lawful(env) && RunAddress(env, l, a) == Some(addr) && a.typ == ACTION_SUBMIT_FORM
    ensures a.input.Some?
    ensures !Departs(env, Sequence, l, a, addr) <==>
            var own := GetAccount(env, l.view, addr);
            own.Found? && own.account.sequence + 1 == a.input.value.sequence
  {
    hide Lawful, GetAccount, Step;
    RunsByType(env, l, a);
    TakesNamed(env, l, a);
  }

  // ---------- Runs ----------

  predicate RunsAt(env: Env, l: Ledger, acts: seq<Action>, addr: Bytes, i: nat)
    requires i < |acts|
  {
    RunAddress(env, After(env, l, acts, i), acts[i]) == Some(addr)
  }

  /** A create runs under the address. */
  predicate Created(env: Env, l: Ledger, acts: seq<Action>, addr: Bytes, i: nat)
    requires i < |acts|
  {
    RunsAt(env, l, acts, addr, i) && acts[i].typ == ACTION_CREATE_ACCOUNT
  }

  predicate NoCreate(env: Env, l: Ledger, acts: seq<Action>, addr: Bytes, from: nat, upto: nat)
    requires upto <= |acts|
  {
    forall i :: from <= i < upto ==> !Created(env, l, acts, addr, i)
  }

  predicate DepartsAt(env: Env, s: Aspect, l: Ledger, acts: seq<Action>, addr: Bytes, i: nat)
    requires i < |acts|
  {
    Departs(env, s, After(env, l, acts, i), acts[i], addr)
  }

  predicate NoneDeparts(env: Env, s: Aspect, l: Ledger, acts: seq<Action>, addr: Bytes, from: nat, upto: nat)
    requires upto <= |acts|
  {
    forall i :: from <= i < upto ==> !DepartsAt(env, s, l, acts, addr, i)
  }

  /** The reading due at `n`: that at `from`, moved on by the actions that have run under the address. */
  function Due(env: Env, s: Aspect, l: Ledger, acts: seq<Action>, addr: Bytes, from: nat, n: nat): Reading
    requires from <= n <= |acts|
    decreases n
  {
    if n == from then Gauge(s, AccountAt(env, l, acts, addr, from))
    else Moved(env, s, After(env, l, acts, n - 1), acts[n - 1], addr, Due(env, s, l, acts, addr, from, n - 1))
  }

  predicate OnCourse(env: Env, s: Aspect, l: Ledger, acts: seq<Action>, addr: Bytes, from: nat, n: nat)
    requires from <= n <= |acts|
  {
    Gauge(s, AccountAt(env, l, acts, addr, n)) == Due(env, s, l, acts, addr, from, n)
  }

  /** Over a run of any actions an account stays on course, in its sequence, its difference or its history,
      exactly as long as no action departs. */
  lemma {:induction false} FollowsExactly(
    env: Env, s: Aspect, l: Ledger, acts: seq<Action>, addr: Bytes, from: nat, n: nat)
    requires Lawful(env) && from <= n <= |acts|
    ensures (forall m :: from <= m <= n ==> OnCourse(env, s, l, acts, addr, from, m)) <==>
            NoneDeparts(env, s, l, acts, addr, from, n)
    decreases n
  {
    hide Lawful, Gauge, GetAccount, Moved, Departs, Step;
    if n > from {
      FollowsExactly(env, s, l, acts, addr, from, n - 1);
      MovesExactly(env, s, After(env, l, acts, n - 1), acts[n - 1], addr);
      if OnCourse(env, s, l, acts, addr, from, n - 1) {
        assert OnCourse(env, s, l, acts, addr, from, n) <==> !DepartsAt(env, s, l, acts, addr, n - 1);
      }
    }
  }

  // ---------- What is due ----------

  /** How many actions run under the address from `i` on, before `j`. */
  function Count(env: Env, l: Ledger, acts: seq<Action>, addr: Bytes, i: nat, j: nat): nat
    requires i <= j <= |acts|
    decreases j - i
  {
    if i == j then 0
    else Count(env, l, acts, addr, i, j - 1) + if RunsAt(env, l, acts, addr, j - 1) then 1 else 0
  }

  /** The hex identifiers of the forms submitted under the address from `i` on, before `j`, in order. */
  function FormsBetween(env: Env, l: Ledger, acts: seq<Action>, addr: Bytes, i: nat, j: nat): seq<Bytes>
    requires i <= j <= |acts|
    decreases j - i
  {
    if i == j then []
    else
      FormsBetween(env, l, acts, addr, i, j - 1) +
      if RunsAt(env, l, acts, addr, j - 1) && acts[j - 1].typ == ACTION_SUBMIT_FORM
      then [BytesToHexstr(FormOf(env, acts[j - 1]))]
      else []
  }

  /** A reading some actions and forms later. */
  function Counted(s: Aspect, x: Reading, count: nat, formIDs: seq<Bytes>): Reading {
    match x
    case Number(n) => if s == Sequence then Number(n + count) else x
    case Tally(n, ids) => Tally(n + count, ids + formIDs)
    case _ => x
  }

  /** Without a create, an account is due that has counted the actions and lists their forms, or none. */
  lemma {:induction false} DueCounts(
    env: Env, s: Aspect, l: Ledger, acts: seq<Action>, addr: Bytes, from: nat, n: nat)
    requires from <= n <= |acts| && NoCreate(env, l, acts, addr, from, n)
    ensures var x := Gauge(s, AccountAt(env, l, acts, addr, from));
      var due := Due(env, s, l, acts, addr, from, n);
      var count, ids := Count(env, l, acts, addr, from, n), FormsBetween(env, l, acts, addr, from, n);
      due == NoAccount || (due == Counted(s, x, count, ids) && (x.Tally? || x.Number? ==> |ids| == count))
    decreases n
  {
    hide Gauge, AccountAt, After, RunAddress, Step, BytesToHexstr, FormOf;
    if n > from {
      DueCounts(env, s, l, acts, addr, from, n - 1);
      assert !Created(env, l, acts, addr, n - 1);
      if RunsAt(env, l, acts, addr, n - 1) {
        RunsByType(env, After(env, l, acts, n - 1), acts[n - 1]);
      }
    }
  }

  /** The account after `n` actions, counted from the last create under the address or from the start. */
  lemma CourseSinceCreate(env: Env, s: Aspect, l: Ledger, acts: seq<Action>, addr: Bytes, n: nat)
    requires Lawful(env) && n <= |acts| && NoneDeparts(env, s, l, acts, addr, 0, n)
    requires AccountAt(env, l, acts, addr, n).Found?
    ensures var from := match LastCreate(env, l, acts, addr, n) case Some(i) => i + 1 case None => 0;
      from <= n &&
      var count, ids := Count(env, l, acts, addr, from, n), FormsBetween(env, l, acts, addr, from, n);
      var first := if from > 0 then Start(s) else Gauge(s, AccountAt(env, l, acts, addr, 0));
      && Gauge(s, AccountAt(env, l, acts, addr, n)) == Counted(s, first, count, ids)
      && |ids| == count
  {
    hide Step, AccountAt, After, Lawful, BytesToHexstr, FormsBetween, Count, Due, Departs;
    LastCreateIsLast(env, l, acts, addr, n);
    var from := match LastCreate(env, l, acts, addr, n) case Some(i) => i + 1 case None => 0;
    FollowsExactly(env, s, l, acts, addr, from, n);
    DueCounts(env, s, l, acts, addr, from, n);
    assert OnCourse(env, s, l, acts, addr, from, n);
    if from > 0 {
      CreatedStarts(env, s, l, acts, addr, from - 1);
    }
  }

  lemma CreatedStarts(env: Env, s: Aspect, l: Ledger, acts: seq<Action>, addr: Bytes, i: nat)
    requires Lawful(env) && i < |acts| && Created(env, l, acts, addr, i)
    ensures Gauge(s, AccountAt(env, l, acts, addr, i + 1)) == Start(s)
  {
    var was, a := After(env, l, acts, i), acts[i];
    hide Lawful, Gauge, GetAccount, Step;
    MovesExactly(env, s, was, a, addr);
  }

  /** The last create that runs under the address before `n`, if there is one. */
  function LastCreate(env: Env, l: Ledger, acts: seq<Action>, addr: Bytes, n: nat): Option<nat>
    requires n <= |acts|
  {
    if n == 0 then None
    else if Created(env, l, acts, addr, n - 1) then Some(n - 1)
    else LastCreate(env, l, acts, addr, n - 1)
  }

  lemma {:induction false} LastCreateIsLast(env: Env, l: Ledger, acts: seq<Action>, addr: Bytes, n: nat)
    requires n <= |acts|
    ensures match LastCreate(env, l, acts, addr, n)
      case Some(i) => i < n && Created(env, l, acts, addr, i) && NoCreate(env, l, acts, addr, i + 1, n)
      case None => NoCreate(env, l, acts, addr, 0, n)
  {
    hide Created;
    if n > 0 && !Created(env, l, acts, addr, n - 1) {
      LastCreateIsLast(env, l, acts, addr, n - 1);
    }
  }

  /** As long as its difference is on course, an account keeps that of the genesis, or has one if it was
      created since. As long as its history is, it lists the forms it had at the genesis, or none if it was
      created since, and then those submitted under it, in order. */
  lemma SequenceTracksForms(env: Env, l: Ledger, acts: seq<Action>, addr: Bytes, n: nat)
    requires Lawful(env) && n <= |acts| && AccountAt(env, l, acts, addr, n).Found?
    ensures var acc, was := AccountAt(env, l, acts, addr, n).account, GetAccount(env, l.view, addr);
      var created := LastCreate(env, l, acts, addr, n);
      && (NoneDeparts(env, Difference, l, acts, addr, 0, n) ==>
            if created.Some? then acc.sequence - |acc.formIDs| == 1
            else was.Found? && acc.sequence - |acc.formIDs| == was.account.sequence - |was.account.formIDs|)
      && (NoneDeparts(env, History, l, acts, addr, 0, n) ==>
            match created
            case Some(i) => i < n && acc.formIDs == FormsBetween(env, l, acts, addr, i + 1, n)
            case None => was.Found? && acc.formIDs == was.account.formIDs + FormsBetween(env, l, acts, addr, 0, n))
  {
    hide Step, Lawful, BytesToHexstr, FormsBetween, Count, NoneDeparts, GetAccount, LastCreate;
    assert AccountAt(env, l, acts, addr, 0) == GetAccount(env, l.view, addr);
    if NoneDeparts(env, Difference, l, acts, addr, 0, n) {
      CourseSinceCreate(env, Difference, l, acts, addr, n);
    }
    if NoneDeparts(env, History, l, acts, addr, 0, n) {
      CourseSinceCreate(env, History, l, acts, addr, n);
      var created := LastCreate(env, l, acts, addr, n);
      if created.Some? {
        var ids := FormsBetween(env, l, acts, addr, created.value + 1, n);
        assert [] + ids == ids;
      }
    }
  }

  // ---------- Sequences ----------

  /** An action other than a create that does not carry the sequence next to that of the address it runs
      under, or a form stored over the account that makes it another sequence. */
  predicate Skips(env: Env, l: Ledger, a: Action, addr: Bytes) {
    if RunAddress(env, l, a) == Some(addr) then
      && a.typ != ACTION_CREATE_ACCOUNT
      && var own := GetAccount(env, l.view, addr);
        !(a.input.Some? && own.Found? && own.account.sequence + 1 == a.input.value.sequence)
    else Departs(env, Sequence, l, a, addr)
  }

  predicate SkipsAt(env: Env, l: Ledger, acts: seq<Action>, addr: Bytes, i: nat)
    requires i < |acts|
  {
    Skips(env, After(env, l, acts, i), acts[i], addr)
  }

  predicate NoneSkips(env: Env, l: Ledger, acts: seq<Action>, addr: Bytes, from: nat, upto: nat)
    requires upto <= |acts|
  {
    forall i :: from <= i < upto ==> !SkipsAt(env, l, acts, addr, i)
  }

  /** If it runs under the address and is no create, it carries the sequence next to the one due there. */
  predicate InOrder(env: Env, l: Ledger, acts: seq<Action>, addr: Bytes, from: nat, i: nat)
    requires from <= i < |acts|
  {
    RunsAt(env, l, acts, addr, i) && acts[i].typ != ACTION_CREATE_ACCOUNT ==>
      && acts[i].input.Some?
      && Due(env, Sequence, l, acts, addr, from, i) == Number(acts[i].input.value.sequence - 1)
  }

  lemma DepartingSkips(env: Env, l: Ledger, a: Action, addr: Bytes)
    requires Lawful(env) && Departs(env, Sequence, l, a, addr)
    ensures Skips(env, l, a, addr)
  {
    hide Lawful, GetAccount, Step, RunAddress;
    if RunAddress(env, l, a) == Some(addr) {
      TakesNextExactly(env, l, a, addr);
    }
  }

  lemma InOrderExactly(env: Env, l: Ledger, acts: seq<Action>, addr: Bytes, from: nat, i: nat)
    requires from <= i < |acts| && OnCourse(env, Sequence, l, acts, addr, from, i)
    requires !DepartsAt(env, Sequence, l, acts, addr, i)
    ensures InOrder(env, l, acts, addr, from, i) <==> !SkipsAt(env, l, acts, addr, i)
  {
    hide GetAccount, Step, RunAddress, After, Due;
  }

  /** Over a run of any actions an account keeps its due sequence, and the actions that run under the address
      carry them one by one, exactly as long as no action skips. */
  lemma SequencesExactly(env: Env, l: Ledger, acts: seq<Action>, addr: Bytes, from: nat, n: nat)
    requires Lawful(env) && from <= n <= |acts|
    ensures (forall m :: from <= m <= n ==> OnCourse(env, Sequence, l, acts, addr, from, m)) &&
            (forall i :: from <= i < n ==> InOrder(env, l, acts, addr, from, i))
            <==> NoneSkips(env, l, acts, addr, from, n)
  {
    hide Lawful, Skips, Departs, OnCourse, InOrder, Step, After;
    FollowsExactly(env, Sequence, l, acts, addr, from, n);
    forall i | from <= i < n
      ensures DepartsAt(env, Sequence, l, acts, addr, i) ==> SkipsAt(env, l, acts, addr, i)
      ensures OnCourse(env, Sequence, l, acts, addr, from, i) && !DepartsAt(env, Sequence, l, acts, addr, i) ==>
                (InOrder(env, l, acts, addr, from, i) <==> !SkipsAt(env, l, acts, addr, i))
    {
      if DepartsAt(env, Sequence, l, acts, addr, i) {
        DepartingSkips(env, After(env, l, acts, i), acts[i], addr);
      } else if OnCourse(env, Sequence, l, acts, addr, from, i) {
        InOrderExactly(env, l, acts, addr, from, i);
      }
    }
  }

  /** Without a create in between, an account that is gone stays gone, and one that is there has counted the
      actions that ran under it and listed the forms they submitted. */
  lemma SequenceCounts(env: Env, l: Ledger, acts: seq<Action>, addr: Bytes, i: nat, j: nat)
    requires Lawful(env) && i <= j <= |acts|
    requires NoneDeparts(env, History, l, acts, addr, i, j) && NoCreate(env, l, acts, addr, i, j)
    ensures var was, now := AccountAt(env, l, acts, addr, i), AccountAt(env, l, acts, addr, j);
      && (!was.Found? ==> !now.Found?)
      && (now.Found? ==>
            && now.account.sequence == was.account.sequence + Count(env, l, acts, addr, i, j)
            && now.account.formIDs == was.account.formIDs + FormsBetween(env, l, acts, addr, i, j)
            && |FormsBetween(env, l, acts, addr, i, j)| == Count(env, l, acts, addr, i, j))
      && (!now.Found? ==> was == now || now == Missing)
  {
    hide Step, AccountAt, Lawful, BytesToHexstr, FormsBetween, Count, Due, Departs;
    FollowsExactly(env, History, l, acts, addr, i, j);
    DueCounts(env, History, l, acts, addr, i, j);
    assert OnCourse(env, History, l, acts, addr, i, j);
  }

  /** What an action leaves at the address it runs under. */
  lemma RunLeaves(env: Env, l: Ledger, acts: seq<Action>, addr: Bytes, i: nat)
    requires Lawful(env) && i < |acts| && RunsAt(env, l, acts, addr, i)
    ensures acts[i].input.Some?
    ensures Gauge(Sequence, AccountAt(env, l, acts, addr, i + 1)) ==
            if acts[i].typ == ACTION_REMOVE_ACCOUNT then NoAccount else Number(acts[i].input.value.sequence)
  {
    var was, a := After(env, l, acts, i), acts[i];
    RunsByType(env, was, a);
    StepOnAccount(env, was, a, addr);
    RunsUnderAnAddress(env, was, a);
    hide Lawful, GetAccount, Step, RunAddress, Bumped;
  }

  /** Between creates the actions that run under an address carry consecutive sequences, as long as none skips. */
  lemma SequencesAreConsecutive(env: Env, l: Ledger, acts: seq<Action>, addr: Bytes, i: nat, j: nat)
    requires Lawful(env) && i < j < |acts|
    requires RunsAt(env, l, acts, addr, i) && RunsAt(env, l, acts, addr, j)
    requires NoCreate(env, l, acts, addr, i + 1, j + 1) && NoneSkips(env, l, acts, addr, i + 1, j + 1)
    ensures acts[i].input.Some? && acts[j].input.Some? && acts[i].typ != ACTION_REMOVE_ACCOUNT
    ensures acts[j].input.value.sequence ==
            acts[i].input.value.sequence + Count(env, l, acts, addr, i + 1, j) + 1
  {
    hide Step, AccountAt, Lawful, RunAddress, Count, FormsBetween, Due, Skips, OnCourse, RunsAt;
    SequencesExactly(env, l, acts, addr, i + 1, j + 1);
    assert InOrder(env, l, acts, addr, i + 1, j);
    assert !Created(env, l, acts, addr, j);
    RunLeaves(env, l, acts, addr, i);
    DueCounts(env, Sequence, l, acts, addr, i + 1, j);
  }

  /** An action that ran under the address it names is not followed by another accepted at the same sequence
      there, but for a create, unless a create or a departing action ran in between. */
  lemma NothingIsAcceptedTwice(env: Env, l: Ledger, acts: seq<Action>, addr: Bytes, i: nat, j: nat)
    requires Lawful(env) && i < j < |acts| && RunsAt(env, l, acts, addr, i)
    requires Accepted(env, l, acts, addr, j) && acts[j].typ != ACTION_CREATE_ACCOUNT
    requires acts[i].input.Some? && acts[i].input.value.sequence >= acts[j].input.value.sequence
    ensures exists k :: i < k < j && (Created(env, l, acts, addr, k) || DepartsAt(env, Sequence, l, acts, addr, k))
  {
    hide Step, GetAccount, After, Lawful, RunAddress, Count, FormsBetween, Due, Departs;
    RunLeaves(env, l, acts, addr, i);
    TakesNamed(env, After(env, l, acts, j), acts[j]);
    if NoCreate(env, l, acts, addr, i + 1, j) && NoneDeparts(env, Sequence, l, acts, addr, i + 1, j) {
      FollowsExactly(env, Sequence, l, acts, addr, i + 1, j);
      assert OnCourse(env, Sequence, l, acts, addr, i + 1, j);
      DueCounts(env, Sequence, l, acts, addr, i + 1, j);
    }
  }

  /** After a remove nothing but a create is accepted for the address, as long as neither a create nor a
      departing action runs under it. */
  lemma RemovedStaysRemoved(env: Env, l: Ledger, acts: seq<Action>, addr: Bytes, i: nat, j: nat)
    requires Lawful(env) && i < j < |acts|
    requires RunsAt(env, l, acts, addr, i) && acts[i].typ == ACTION_REMOVE_ACCOUNT
    requires NoCreate(env, l, acts, addr, i + 1, j) && NoneDeparts(env, Sequence, l, acts, addr, i + 1, j)
    ensures AccountAt(env, l, acts, addr, j) == Missing
    ensures Accepted(env, l, acts, addr, j) ==> acts[j].typ == ACTION_CREATE_ACCOUNT
  {
    hide Step, GetAccount, After, Lawful, RunAddress, Count, FormsBetween, Due, Departs;
    RunLeaves(env, l, acts, addr, i);
    FollowsExactly(env, Sequence, l, acts, addr, i + 1, j);
    assert OnCourse(env, Sequence, l, acts, addr, i + 1, j);
    DueCounts(env, Sequence, l, acts, addr, i + 1, j);
    if Accepted(env, l, acts, addr, j) && acts[j].typ != ACTION_CREATE_ACCOUNT {
      TakesNamed(env, After(env, l, acts, j), acts[j]);
    }
  }

  // ---------- Actions that stay with their address ----------

  /** The action is accepted for `addr` exactly if it runs under `addr`, and it stores no form over its account. */
  predicate Stays(env: Env, l: Ledger, a: Action, addr: Bytes) {
    && (RunAddress(env, l, a) == Some(addr) <==> Step(env, l, a).1 == OK && At(a, addr))
    && !Overwrites(env, l, a, addr)
  }

  predicate StaysAt(env: Env, l: Ledger, acts: seq<Action>, addr: Bytes, i: nat)
    requires i < |acts|
  {
    Stays(env, After(env, l, acts, i), acts[i], addr)
  }

  predicate AllStay(env: Env, l: Ledger, acts: seq<Action>, addr: Bytes, from: nat, upto: nat)
    requires upto <= |acts|
  {
    forall i :: from <= i < upto ==> StaysAt(env, l, acts, addr, i)
  }

  /** Built by `Prepare`: an input key, if there is one, is the key of the input address. A submitted
      form identifier is not the key of an account, as those that `Form.ID` makes are not. */
  predicate WellBuilt(env: Env, a: Action) {
    && a.input.Some?
    && (a.input.value.pubKey.Some? ==> env.address(a.input.value.pubKey.value) == a.input.value.address)
    && Spares(env, a)
  }

  predicate AllWellBuilt(env: Env, acts: seq<Action>) {
    forall i :: 0 <= i < |acts| ==> WellBuilt(env, acts[i])
  }

  /** Where the account it names fits, an accepted action runs under another address than it names exactly
      if its input has a key of another address. */
  lemma RunsElsewhereExactly(env: Env, l: Ledger, a: Action)
    requires Lawful(env) && Step(env, l, a).1 == OK && AccountFits(env, l.view, a.input.value.address)
    ensures RunAddress(env, l, a) != Some(a.input.value.address) <==>
            a.input.value.pubKey.Some? && env.address(a.input.value.pubKey.value) != a.input.value.address
  {
  }

  lemma WellBuiltStays(env: Env, l: Ledger, a: Action, addr: Bytes)
    requires Lawful(env) && AccountsFit(env, l) && WellBuilt(env, a) && |addr| == ADDRESS_LENGTH
    ensures Stays(env, l, a, addr)
  {
    SparedIsNotOverwritten(env, l, a, addr);
    if Step(env, l, a).1 == OK {
      RunsUnderAnAddress(env, l, a);
      assert AccountFits(env, l.view, a.input.value.address);
      RunsElsewhereExactly(env, l, a);
    }
  }

  lemma WellBuiltRunStays(env: Env, l: Ledger, acts: seq<Action>, addr: Bytes)
    requires Lawful(env) && AccountsFit(env, l) && AllWellBuilt(env, acts) && |addr| == ADDRESS_LENGTH
    ensures AllStay(env, l, acts, addr, 0, |acts|)
  {
    forall i | 0 <= i < |acts| ensures StaysAt(env, l, acts, addr, i) {
      RunKeepsAccounts(env, l, acts, i);
      WellBuiltStays(env, After(env, l, acts, i), acts[i], addr);
    }
  }

  /** What stays with the address neither departs from its account nor skips a sequence. */
  lemma StayingIsOnCourse(env: Env, s: Aspect, l: Ledger, a: Action, addr: Bytes)
    requires Lawful(env) && Stays(env, l, a, addr)
    ensures !Departs(env, s, l, a, addr) && !Skips(env, l, a, addr)
  {
    hide Lawful, GetAccount, Step, RunAddress, Overwrites;
    if RunAddress(env, l, a) == Some(addr) && a.typ != ACTION_CREATE_ACCOUNT {
      TakesNamed(env, l, a);
    }
  }

  /** Over any run of well-built actions every account stays on course in all that is followed of it. */
  lemma WellBuiltRunIsOnCourse(env: Env, s: Aspect, l: Ledger, acts: seq<Action>, addr: Bytes)
    requires Lawful(env) && AccountsFit(env, l) && AllWellBuilt(env, acts) && |addr| == ADDRESS_LENGTH
    ensures NoneDeparts(env, s, l, acts, addr, 0, |acts|) && NoneSkips(env, l, acts, addr, 0, |acts|)
  {
    WellBuiltRunStays(env, l, acts, addr);
    hide Lawful, AccountsFit, AllWellBuilt, Departs, Skips, Stays, After;
    forall i | 0 <= i < |acts|
      ensures !DepartsAt(env, s, l, acts, addr, i) && !SkipsAt(env, l, acts, addr, i)
    {
      assert StaysAt(env, l, acts, addr, i);
      StayingIsOnCourse(env, s, After(env, l, acts, i), acts[i], addr);
    }
  }

  /** Over any run of well-built actions, sequences between creates are consecutive and nothing is accepted
      twice. */
  lemma WellBuiltAreAcceptedOnce(env: Env, l: Ledger, acts: seq<Action>, addr: Bytes, i: nat, j: nat)
    requires Lawful(env) && AccountsFit(env, l) && AllWellBuilt(env, acts) && |addr| == ADDRESS_LENGTH
    requires i < j < |acts| && Accepted(env, l, acts, addr, i) && Accepted(env, l, acts, addr, j)
    ensures NoCreate(env, l, acts, addr, i + 1, j + 1) ==>
              acts[j].input.value.sequence ==
              acts[i].input.value.sequence + Count(env, l, acts, addr, i + 1, j) + 1
    ensures acts[i].input.value.sequence == acts[j].input.value.sequence ==>
              exists k :: i < k <= j && Created(env, l, acts, addr, k)
  {
    WellBuiltRunStays(env, l, acts, addr);
    WellBuiltRunIsOnCourse(env, Sequence, l, acts, addr);
    hide Lawful, AccountsFit, AllWellBuilt, DepartsAt, SkipsAt, After, Ends, RunAddress, Overwrites, Count;
    assert StaysAt(env, l, acts, addr, i) && StaysAt(env, l, acts, addr, j);
    if NoCreate(env, l, acts, addr, i + 1, j + 1) {
      SequencesAreConsecutive(env, l, acts, addr, i, j);
    }
  }

  // ---------- The same action again ----------

  /** The filter that took the submitted form once takes it once more. */
  predicate TakesAgain(env: Env, l: Ledger, a: Action) {
    a.typ == ACTION_SUBMIT_FORM && env.decInfo(a.data).Some? ==>
      var info := env.decInfo(a.data).value;
      info.issue in l.filters && env.adds(l.filters[info.issue] + [info.formID], info.formID)
  }

  /** A form stored over the very account the action names leaves one there that validates the action. */
  predicate NamesAgain(env: Env, l: Ledger, a: Action)
    requires a.input.Some?
  {
    Overwrites(env, l, a, a.input.value.address) ==>
      match AccountIn(env, Data(Content(env, a)))
      case Found(acc) =>
        ValidateAdvanced(env, WithInputKey(acc, a.input.value), SignBytes(env, l.chainID, a), a.input.value) == OK
      case _ => false
  }

  /** An accepted action is accepted again right after exactly if it is a create, or if it runs under
      another address than it names, its filter takes the form again, and it names an account still. */
  lemma AcceptedAgainExactly(env: Env, l: Ledger, a: Action)
    requires Lawful(env) && Step(env, l, a).1 == OK
    ensures Step(env, Step(env, l, a).0, a).1 == OK <==>
            || a.typ == ACTION_CREATE_ACCOUNT
            || (RunAddress(env, l, a) != Some(a.input.value.address) && TakesAgain(env, l, a) && NamesAgain(env, l, a))
  {
    StepOnAccount(env, l, a, a.input.value.address);
    RunsUnderAnAddress(env, l, a);
    hide Lawful, GetAccount, SignBytes;
  }

  /** A well-built action other than a create is never accepted again right after. */
  lemma WellBuiltIsNotAcceptedAgain(env: Env, l: Ledger, a: Action)
    requires Lawful(env) && AccountsFit(env, l) && WellBuilt(env, a)
    requires Step(env, l, a).1 == OK && a.typ != ACTION_CREATE_ACCOUNT
    ensures Step(env, Step(env, l, a).0, a).1 != OK
  {
    RunsUnderAnAddress(env, l, a);
    AcceptedAgainExactly(env, l, a);
    WellBuiltStays(env, l, a, a.input.value.address);
    hide Step, Lawful, AccountsFit, WellBuilt;
  }

  /** The signature verifies under the input's key or, without one, under that of the account it names. */
  predicate Verifies(env: Env, l: Ledger, a: Action) {
    && a.input.Some? && Named(env, l, a).Found?
    && var key := WithInputKey(Named(env, l, a).account, a.input.value).pubKey;
      key.Some? && env.verify(key.value, SignBytes(env, l.chainID, a), a.input.value.signature)
  }

  /** The issue has a filter that takes the form. */
  predicate Takes(env: Env, l: Ledger, a: Action) {
    a.typ == ACTION_SUBMIT_FORM && env.decInfo(a.data).Some? ==>
      FilterAdds(env, l.filters, env.decInfo(a.data).value.issue, env.decInfo(a.data).value.formID)
  }

  lemma AcceptedElsewhereExactly(env: Env, l: Ledger, l': Ledger, a: Action)
    requires l'.chainID == l.chainID && Step(env, l, a).1 == OK && a.typ != ACTION_CREATE_ACCOUNT
    ensures Step(env, l', a).1 == OK <==>
            && Gauge(Sequence, Named(env, l', a)) == Gauge(Sequence, Named(env, l, a))
            && Verifies(env, l', a) && Takes(env, l', a)
  {
    hide GetAccount, SignBytes;
  }

  lemma {:induction false} RunKeepsChain(env: Env, l: Ledger, acts: seq<Action>, n: nat)
    requires n <= |acts|
    ensures After(env, l, acts, n).chainID == l.chainID
  {
    if n > 0 {
      RunKeepsChain(env, l, acts, n - 1);
    }
  }

  /** An action that was accepted is accepted again, at any later place of any run, exactly when it is a
      create or the account it names is back at the sequence it had, its signature verifies there and the
      filter takes its form. */
  lemma AcceptedLaterExactly(env: Env, l: Ledger, acts: seq<Action>, i: nat, j: nat)
    requires i < j < |acts| && acts[i] == acts[j] && Ends(env, l, acts, i) == OK
    ensures var was, now := After(env, l, acts, i), After(env, l, acts, j);
      Ends(env, l, acts, j) == OK <==>
      || acts[j].typ == ACTION_CREATE_ACCOUNT
      || (&& Gauge(Sequence, Named(env, now, acts[j])) == Gauge(Sequence, Named(env, was, acts[j]))
          && Verifies(env, now, acts[j]) && Takes(env, now, acts[j]))
  {
    RunKeepsChain(env, l, acts, i);
    RunKeepsChain(env, l, acts, j);
    hide After;
    if acts[j].typ == ACTION_CREATE_ACCOUNT {
      CreatesAnywhere(env, After(env, l, acts, i), After(env, l, acts, j), acts[j]);
    } else {
      AcceptedElsewhereExactly(env, After(env, l, acts, i), After(env, l, acts, j), acts[j]);
    }
  }

  lemma CreatesAnywhere(env: Env, l: Ledger, l': Ledger, a: Action)
    requires l'.chainID == l.chainID && Step(env, l, a).1 == OK && a.typ == ACTION_CREATE_ACCOUNT
    ensures Step(env, l', a).1 == OK
  {
  }

  // ---------- Differences ----------

  function DifferenceOf(acc: Account): int {
    acc.sequence - |acc.formIDs|
  }

  /** The account, where there is one, is ahead of its forms by one of `ds`. */
  ghost predicate DifferenceIn(f: Found, ds: iset<int>) {
    f.Found? ==> DifferenceOf(f.account) in ds
  }

  ghost predicate DifferencesIn(env: Env, l: Ledger, ds: iset<int>) {
    forall addr {:trigger GetAccount(env, l.view, addr)} ::
      |addr| == ADDRESS_LENGTH ==> DifferenceIn(GetAccount(env, l.view, addr), ds)
  }

  /** Where every difference is in `ds` and one is too, an account has its in `ds` after any step exactly
      unless the step stores a form over it that makes it one of another difference. */
  lemma DifferenceInExactly(env: Env, l: Ledger, a: Action, addr: Bytes, ds: iset<int>)
    requires Lawful(env) && DifferencesIn(env, l, ds) && 1 in ds && |addr| == ADDRESS_LENGTH
    ensures DifferenceIn(GetAccount(env, Step(env, l, a).0.view, addr), ds) <==>
            (Overwrites(env, l, a, addr) ==> DifferenceIn(AccountIn(env, Data(Content(env, a))), ds))
  {
    StepOnAccount(env, l, a, addr);
    if RunAddress(env, l, a) == Some(addr) {
      RunsByType(env, l, a);
      RunsUnderAnAddress(env, l, a);
      hide Lawful, GetAccount, Step, RunAddress, Content;
      if a.typ != ACTION_CREATE_ACCOUNT {
        TakesNamed(env, l, a);
        assert DifferenceIn(GetAccount(env, l.view, a.input.value.address), ds);
      }
    } else {
      assert DifferenceIn(GetAccount(env, l.view, addr), ds);
    }
  }

  /** In every reachable ledger every account is ahead of its forms by one or by what some account was at the
      start, whatever the actions, if no form takes the key of an account for its identifier. */
  lemma {:induction false} RunKeepsDifferences(env: Env, l: Ledger, acts: seq<Action>, n: nat, ds: iset<int>)
    requires Lawful(env) && DifferencesIn(env, l, ds) && 1 in ds && AllSpare(env, acts) && n <= |acts|
    ensures DifferencesIn(env, After(env, l, acts, n), ds)
  {
    if n > 0 {
      RunKeepsDifferences(env, l, acts, n - 1, ds);
      var was, a := After(env, l, acts, n - 1), acts[n - 1];
      hide Step, Spares, Overwrites, Lawful, DifferenceIn;
      forall addr | |addr| == ADDRESS_LENGTH
        ensures DifferenceIn(GetAccount(env, Step(env, was, a).0.view, addr), ds)
      {
        SparedIsNotOverwritten(env, was, a, addr);
        DifferenceInExactly(env, was, a, addr, ds);
      }
    }
  }

  lemma {:induction false} GenesisDifferences(env: Env, l: Ledger, accs: seq<Account>, ds: iset<int>)
    requires Lawful(env) && l.view == map[]
    requires forall i :: 0 <= i < |accs| ==> accs[i].pubKey.Some? && DifferenceOf(accs[i]) in ds
    ensures DifferencesIn(env, GenesisAll(env, l, accs), ds)
  {
    if accs != [] {
      var acc, rest := accs[|accs| - 1], accs[..|accs| - 1];
      GenesisDifferences(env, l, rest, ds);
      var was := GenesisAll(env, l, rest);
      forall addr | |addr| == ADDRESS_LENGTH
        ensures DifferenceIn(GetAccount(env, GenesisAll(env, l, accs).view, addr), ds)
      {
        assert DifferenceIn(GetAccount(env, was.view, addr), ds);
        GetAfterSet(env, was.view, env.address(acc.pubKey.value), Some(acc), addr);
      }
    }
  }

  /** From a genesis, the difference of a stored account is one or that of a genesis account. */
  lemma GenesisDifferenceOrOne(env: Env, l: Ledger, accs: seq<Account>, acts: seq<Action>, n: nat, addr: Bytes)
    requires Lawful(env) && l.view == map[] && (forall i :: 0 <= i < |accs| ==> accs[i].pubKey.Some?)
    requires AllSpare(env, acts) && n <= |acts| && |addr| == ADDRESS_LENGTH
    requires AccountAt(env, GenesisAll(env, l, accs), acts, addr, n).Found?
    ensures var d := DifferenceOf(AccountAt(env, GenesisAll(env, l, accs), acts, addr, n).account);
      d == 1 || exists i :: 0 <= i < |accs| && d == DifferenceOf(accs[i])
  {
    var ds := iset{1} + iset i | 0 <= i < |accs| :: DifferenceOf(accs[i]);
    GenesisDifferences(env, l, accs, ds);
    RunKeepsDifferences(env, GenesisAll(env, l, accs), acts, n, ds);
    hide Lawful, After, DifferenceOf, GenesisAll;
    assert DifferenceIn(AccountAt(env, GenesisAll(env, l, accs), acts, addr, n), ds);
  }
}
