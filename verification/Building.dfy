/** Actions as callers build them, and exactly when they are accepted. */
module Building {
  import opened GoTypes
  import Wire
  import Form
  import opened Ledger
  import opened Runs
  import opened Sequences

  /** Built with `NewAction`, `Prepare` and `Sign`. */
  function Built(env: Env, chainID: Bytes, typ: byte, data: Bytes, privKey: PrivKey, n: int): Action {
    var pubKey := env.publicOf(privKey);
    var unsigned := Action(typ, Some(Input(env.address(pubKey), n, None, if n == 1 then Some(pubKey) else None)), data);
    unsigned.(input := Some(unsigned.input.value.(
      signature := Some(env.sign(privKey, SignBytes(env, chainID, unsigned))))))
  }

  /** The signature plays no part in the bytes that are signed. */
  lemma SignBytesIgnoreSignature(env: Env, chainID: Bytes, a: Action, s: Option<Signature>)
    requires a.input.Some?
    ensures SignBytes(env, chainID, a.(input := Some(a.input.value.(signature := s)))) == SignBytes(env, chainID, a)
  {
  }

  /** All of an action but its signature. */
  predicate SameButSignature(a: Action, b: Action)
    requires a.input.Some? && b.input.Some?
  {
    var i, j := a.input.value, b.input.value;
    a.typ == b.typ && a.data == b.data && i.address == j.address && i.sequence == j.sequence && i.pubKey == j.pubKey
  }

  /** The bytes that are signed are the same exactly for the same chain and the same action but for its signature. */
  lemma SignBytesCover(env: Env, chainID: Bytes, a: Action, otherID: Bytes, b: Action)
    requires Lawful(env) && a.input.Some? && b.input.Some?
    ensures SignBytes(env, chainID, a) == SignBytes(env, otherID, b) <==>
            chainID == otherID && SameButSignature(a, b)
  {
    var unsignedA := a.(input := Some(a.input.value.(signature := None)));
    var unsignedB := b.(input := Some(b.input.value.(signature := None)));
    assert unsignedA == unsignedB <==> SameButSignature(a, b);
    if SignBytes(env, chainID, a) == SignBytes(env, otherID, b) {
      var head := env.encChain(chainID);
      assert chainID == otherID;
      assert SignBytes(env, chainID, a)[|head|..] == env.encAction(unsignedA);
      assert SignBytes(env, chainID, b)[|head|..] == env.encAction(unsignedB);
      assert env.decAction(env.encAction(unsignedA)) == Some(unsignedA);
    }
  }

  /** What is accepted names an address of 20 bytes, carries a positive sequence, and a key exactly at sequence
      one, and its signature verifies over all of it under the key it runs with. */
  lemma AcceptedIsSigned(env: Env, l: Ledger, a: Action)
    requires Step(env, l, a).1 == OK
    ensures a.input.Some? && Bumped(env, l, a).pubKey.Some?
    ensures var i := a.input.value;
      && |i.address| == ADDRESS_LENGTH && i.sequence > 0 && (i.pubKey.Some? <==> i.sequence == 1)
      && (i.pubKey.Some? ==> Bumped(env, l, a).pubKey == i.pubKey)
      && env.verify(Bumped(env, l, a).pubKey.value, SignBytes(env, l.chainID, a), i.signature)
  {
    hide SignBytes, GetAccount;
  }

  predicate Formed(i: Input) {
    |i.address| == ADDRESS_LENGTH && i.sequence > 0 && (i.pubKey.Some? <==> i.sequence == 1)
  }

  /** A create carries sequence one, any other action the one next to that of the account it names. */
  predicate CarriesNext(found: Found, typ: byte, sequence: int) {
    if typ == ACTION_CREATE_ACCOUNT then sequence == 1
    else found.Found? && sequence == found.account.sequence + 1
  }

  /** The key of the input, or else of the account. */
  function KeyFor(found: Found, i: Input): Option<PubKey> {
    if i.pubKey.Some? then i.pubKey else if found.Found? then found.account.pubKey else None
  }

  predicate Signed(env: Env, key: Option<PubKey>, signBytes: Bytes, i: Input) {
    key.Some? && env.verify(key.value, signBytes, i.signature)
  }

  predicate Decodes(env: Env, data: Bytes) {
    env.decInfo(data).Some? && env.encCid(env.decInfo(data).value.contentID).Some?
  }

  predicate HasRoom(env: Env, filters: Filters, info: Form.Info) {
    info.issue in filters && env.adds(filters[info.issue], info.formID)
  }

  /** Why an action is refused: its input is malformed, it names no account, its sequence is not the next one,
      its signature does not verify, its type is unknown, its form does not decode, or it meets a panic. */
  lemma OutcomesExactly(env: Env, l: Ledger, a: Action)
    requires l.chainID != [] && a.input.Some?
    ensures var i, found, res := a.input.value, GetAccount(env, l.view, a.input.value.address), Step(env, l, a).1;
      var key, create, submit := KeyFor(found, i), a.typ == ACTION_CREATE_ACCOUNT, a.typ == ACTION_SUBMIT_FORM;
      var next := Formed(i) && CarriesNext(found, a.typ, i.sequence);
      var passed := next && Signed(env, key, SignBytes(env, l.chainID, a), i);
      && (res == BaseInvalidInput <==> !Formed(i))
      && (res == BaseUnknownAddress <==> Formed(i) && !create && found == Missing)
      && (res == BaseInvalidSequence <==> Formed(i) && (create || found.Found?) && !next)
      && (res == BaseInvalidSignature <==> next && key.Some? && !passed)
      && (res == UnknownRequest <==> passed && a.typ !in {1, 2, 3})
      && (res == EncodingError <==> passed && submit && !Decodes(env, a.data))
      && (res == Panic <==>
            || (Formed(i) && !create && found == Corrupt)
            || (next && key.None?)
            || (passed && submit && Decodes(env, a.data) && !HasRoom(env, l.filters, env.decInfo(a.data).value)))
      && res != BaseEncodingError
  {
    hide SignBytes, GetAccount;
  }

  /** What the run of a validated action still asks for. */
  predicate Runnable(env: Env, l: Ledger, a: Action) {
    || a.typ == ACTION_CREATE_ACCOUNT
    || a.typ == ACTION_REMOVE_ACCOUNT
    || (a.typ == ACTION_SUBMIT_FORM && SubmitRuns(env, l, a.data))
  }

  /** The data decodes, the content ID encodes, and the issue has a filter that takes the form. */
  predicate SubmitRuns(env: Env, l: Ledger, data: Bytes) {
    match env.decInfo(data)
    case None => false
    case Some(info) => env.encCid(info.contentID).Some? && FilterAdds(env, l.filters, info.issue, info.formID)
  }

  /** An action is accepted exactly when check mode passes it and its run has what it asks for; otherwise
      the ledger is left as it was. */
  lemma AcceptedExactly(env: Env, l: Ledger, a: Action)
    ensures Step(env, l, a).1 == OK <==> Validate(env, l, a) == OK && Runnable(env, l, a)
    ensures Step(env, l, a).1 != OK ==> Step(env, l, a).0 == l
  {
  }

  lemma BuiltVerifies(env: Env, chainID: Bytes, typ: byte, data: Bytes, privKey: PrivKey, n: int)
    requires Lawful(env)
    ensures var a := Built(env, chainID, typ, data, privKey, n);
      && WellPrepared(env, a, privKey, n)
      && env.verify(env.publicOf(privKey), SignBytes(env, chainID, a), a.input.value.signature)
      && (ValidateBasic(a.input.value) <==> n > 0)
  {
  }

  predicate WellPrepared(env: Env, a: Action, privKey: PrivKey, n: int) {
    && a.input.Some?
    && a.input.value.address == env.address(env.publicOf(privKey))
    && a.input.value.sequence == n
    && a.input.value.pubKey == if n == 1 then Some(env.publicOf(privKey)) else None
  }

  /** For an account stored at some sequence, a built action is accepted exactly when it carries the next
      sequence, that sequence is positive, and the run has what it asks for. */
  lemma BuiltIsAcceptedExactly(env: Env, l: Ledger, typ: byte, data: Bytes, privKey: PrivKey, n: int)
    requires Lawful(env) && l.chainID != [] && typ != ACTION_CREATE_ACCOUNT
    requires GetAccount(env, l.view, env.address(env.publicOf(privKey))).Found?
    requires var acc := GetAccount(env, l.view, env.address(env.publicOf(privKey))).account;
      acc.sequence == 0 || acc.pubKey == Some(env.publicOf(privKey))
    ensures var acc := GetAccount(env, l.view, env.address(env.publicOf(privKey))).account;
      var a := Built(env, l.chainID, typ, data, privKey, n);
      Step(env, l, a).1 == OK <==> n == acc.sequence + 1 && n > 0 && Runnable(env, l, a)
  {
    var a := Built(env, l.chainID, typ, data, privKey, n);
    BuiltVerifies(env, l.chainID, typ, data, privKey, n);
    AcceptedExactly(env, l, a);
    hide Built, SignBytes, GetAccount, Step;
  }

  /** A built create is accepted exactly at sequence one, whatever is stored. */
  lemma BuiltCreateIsAcceptedExactly(env: Env, l: Ledger, data: Bytes, privKey: PrivKey, n: int)
    requires Lawful(env) && l.chainID != []
    ensures Step(env, l, Built(env, l.chainID, ACTION_CREATE_ACCOUNT, data, privKey, n)).1 == OK <==> n == 1
  {
    var a := Built(env, l.chainID, ACTION_CREATE_ACCOUNT, data, privKey, n);
    BuiltVerifies(env, l.chainID, ACTION_CREATE_ACCOUNT, data, privKey, n);
    AcceptedExactly(env, l, a);
    hide Built, SignBytes, GetAccount, Step;
  }

  /** A built create leaves a new account with the built key, at sequence one. Its name is the slice that the
      data starts with, none where it starts with none. */
  lemma BuiltCreateLeaves(env: Env, l: Ledger, data: Bytes, privKey: PrivKey, name: Bytes, tail: Bytes)
    requires Lawful(env) && l.chainID != []
    ensures var key := env.publicOf(privKey);
      var l' := Step(env, l, Built(env, l.chainID, ACTION_CREATE_ACCOUNT, data, privKey, 1)).0;
      var found := GetAccount(env, l'.view, env.address(key));
      && (data == Wire.Frame(env.wire, name) + tail ==> found == Found(Account([], Some(key), 1, name)))
      && (Wire.GetByteSlice(env.wire, data) == None ==> found == Found(Account([], Some(key), 1, [])))
  {
    var a := Built(env, l.chainID, ACTION_CREATE_ACCOUNT, data, privKey, 1);
    BuiltCreateIsAcceptedExactly(env, l, data, privKey, 1);
    StepOnAccount(env, l, a, env.address(env.publicOf(privKey)));
    Wire.FrameRoundTrip(env.wire, name, tail);
    hide Lawful, GetAccount, SignBytes, Wire.GetByteSlice, Wire.Frame;
  }

  /** What is built has the key of its address, and is well built exactly if its form spares the accounts. */
  lemma BuiltIsWellBuilt(env: Env, chainID: Bytes, typ: byte, data: Bytes, privKey: PrivKey, n: int)
    requires Lawful(env)
    ensures var a := Built(env, chainID, typ, data, privKey, n); WellBuilt(env, a) <==> Spares(env, a)
  {
  }
}
