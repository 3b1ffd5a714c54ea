/** One action as a pure step on a flat ledger: stored bytes and filters. */
module Ledger {
  import opened GoTypes
  import opened Hex
  import opened Wire
  import opened Form

  datatype PubKey = PubKey(bytes: Bytes)
  datatype PrivKey = PrivKey(bytes: Bytes)
  datatype Signature = Signature(bytes: Bytes)

  datatype Account = Account(formIDs: seq<Bytes>, pubKey: Option<PubKey>, sequence: int, username: Bytes)

  datatype Input = Input(address: Bytes, sequence: int, signature: Option<Signature>, pubKey: Option<PubKey>)

  datatype Action = Action(typ: byte, input: Option<Input>, data: Bytes)

  const ACTION_CREATE_ACCOUNT: byte := 1
  const ACTION_REMOVE_ACCOUNT: byte := 2
  const ACTION_SUBMIT_FORM: byte := 3

  const ADDRESS_LENGTH := 20

  /** The libraries: codecs, signatures and the filter's hash table. */
  datatype Env = Env(
    wire: Varints,
    encAccount: Option<Account> -> Bytes,
    decAccount: Bytes -> Option<Option<Account>>,
    encAction: Action -> Bytes,
    decAction: Bytes -> Option<Action>,
    encChain: Bytes -> Bytes,
    address: PubKey -> Bytes,
    publicOf: PrivKey -> PubKey,
    sign: (PrivKey, Bytes) -> Signature,
    verify: (PubKey, Bytes, Option<Signature>) -> bool,
    decInfo: Bytes -> Option<Info>,
    encCid: Bytes -> Option<Bytes>,
    adds: (seq<Bytes>, Bytes) -> bool,
    finds: (seq<Bytes>, Bytes) -> bool)

  /** What is asked of the libraries: codecs round trip, a chain ID is told from what follows it, a
      signature verifies, no encoding of an account or a content ID is empty, and a hash table finds
      everything that was added to it. */
  ghost predicate Lawful(env: Env) {
    && Wire.Lawful(env.wire)
    && (forall a :: env.decAccount(env.encAccount(a)) == Some(a) && env.encAccount(a) != [])
    && (forall a :: env.decAction(env.encAction(a)) == Some(a))
    && (forall c, d, x, y :: env.encChain(c) + x == env.encChain(d) + y ==> c == d)
    && (forall k :: |env.address(k)| == ADDRESS_LENGTH)
    && (forall p, m :: env.verify(env.publicOf(p), m, Some(env.sign(p, m))))
    && (forall c :: env.encCid(c) != Some([]))
    && (forall h: seq<Bytes>, d {:trigger env.finds(h, d)} :: d in h ==> env.finds(h, d))
  }

  /** A hash table is known by what was added to it, in order. */
  type Filters = map<Bytes, seq<Bytes>>

  datatype Ledger = Ledger(chainID: Bytes, view: View, filters: Filters)

  /** How a call ends; `Panic` stands for a Go panic. */
  datatype Outcome =
    | OK | BaseInvalidInput | BaseUnknownAddress | BaseInvalidSequence | BaseInvalidSignature
    | BaseEncodingError | EncodingError | UnknownRequest | Panic

  /** "base/a/" and the address. */
  const ACCOUNT_PREFIX: Bytes := [0x62, 0x61, 0x73, 0x65, 0x2F, 0x61, 0x2F]

  function AccountKey(addr: Bytes): Bytes {
    ACCOUNT_PREFIX + addr
  }

  datatype Found = Missing | Corrupt | Found(account: Account)

  /** The account that a stored value holds. */
  function AccountIn(env: Env, value: Value): Found {
    match value
    case Nil => Missing
    case Data(b) =>
      if b == [] then Missing
      else
        match env.decAccount(b)
        case None => Corrupt
        case Some(None) => Missing
        case Some(Some(a)) => Found(a)
  }

  function GetAccount(env: Env, view: View, addr: Bytes): Found {
    AccountIn(env, Read(view, AccountKey(addr)))
  }

  function SetAccount(env: Env, view: View, addr: Bytes, a: Option<Account>): View {
    view[AccountKey(addr) := env.encAccount(a)]
  }

  predicate ValidateBasic(i: Input) {
    && |i.address| == ADDRESS_LENGTH
    && i.sequence > 0
    && (i.sequence == 1 ==> i.pubKey.Some?)
    && (i.sequence > 1 ==> i.pubKey.None?)
  }

  /** The bytes that are signed: the chain and the action without its signature. */
  function SignBytes(env: Env, chainID: Bytes, a: Action): Bytes
    requires a.input.Some?
  {
    env.encChain(chainID) + env.encAction(a.(input := Some(a.input.value.(signature := None))))
  }

  function Username(env: Env, data: Bytes): Bytes {
    match GetByteSlice(env.wire, data)
    case None => []
    case Some((name, _)) => name
  }

  /** The input's key, where there is one, takes the place of the account's. */
  function WithInputKey(acc: Account, i: Input): Account {
    if i.pubKey.Some? then acc.(pubKey := i.pubKey) else acc
  }

  /** The account an action runs on, or how its lookup fails. */
  function InputAccount(env: Env, l: Ledger, a: Action): (Outcome, Account)
    requires a.input.Some?
  {
    var i := a.input.value;
    var none := Account([], None, 0, []);
    if a.typ == ACTION_CREATE_ACCOUNT then (OK, Account([], i.pubKey, 0, Username(env, a.data)))
    else
      match GetAccount(env, l.view, i.address)
      case Missing => (BaseUnknownAddress, none)
      case Corrupt => (Panic, none)
      case Found(acc) => (OK, WithInputKey(acc, i))
  }

  function ValidateAdvanced(env: Env, acc: Account, signBytes: Bytes, i: Input): Outcome {
    if acc.sequence + 1 != i.sequence then BaseInvalidSequence
    else if acc.pubKey.None? then Panic
    else if !env.verify(acc.pubKey.value, signBytes, i.signature) then BaseInvalidSignature
    else OK
  }

  /** How an action fares before it is run; what check mode reports. */
  function Validate(env: Env, l: Ledger, a: Action): Outcome {
    if l.chainID == [] || a.input.None? then Panic
    else if !ValidateBasic(a.input.value) then BaseInvalidInput
    else
      var (res, acc) := InputAccount(env, l, a);
      if res != OK then res
      else ValidateAdvanced(env, acc, SignBytes(env, l.chainID, a), a.input.value)
  }

  /** The account as the action leaves it. */
  function Bumped(env: Env, l: Ledger, a: Action): Account
    requires a.input.Some?
  {
    var acc := InputAccount(env, l, a).1;
    acc.(sequence := acc.sequence + 1)
  }

  function FilterAdds(env: Env, filters: Filters, issue: Bytes, data: Bytes): bool {
    issue in filters && env.adds(filters[issue], data)
  }

  function FilterAdd(filters: Filters, issue: Bytes, data: Bytes): Filters
    requires issue in filters
  {
    filters[issue := filters[issue] + [data]]
  }

  /** What the issue's filter finds; nothing where there is no such filter. */
  function FilterFinds(env: Env, filters: Filters, issue: Bytes, data: Bytes): Option<bool> {
    if issue in filters then Some(env.finds(filters[issue], data)) else None
  }

  function WithForm(acc: Account, info: Info): Account {
    acc.(formIDs := acc.formIDs + [BytesToHexstr(info.formID)])
  }

  function RunSubmitForm(env: Env, l: Ledger, acc: Account, data: Bytes): (Ledger, Outcome)
    requires acc.pubKey.Some?
  {
    match env.decInfo(data)
    case None => (l, EncodingError)
    case Some(info) =>
      match env.encCid(info.contentID)
      case None => (l, EncodingError)
      case Some(cid) =>
        if !FilterAdds(env, l.filters, info.issue, info.formID) then (l, Panic)
        else
          (Ledger(
             l.chainID,
             SetAccount(env, l.view[info.formID := cid], env.address(acc.pubKey.value), Some(WithForm(acc, info))),
             FilterAdd(l.filters, info.issue, info.formID)),
           OK)
  }

  /** What an action does once it is validated, with the account it runs on. */
  function RunAction(env: Env, l: Ledger, acc: Account, a: Action): (Ledger, Outcome)
    requires acc.pubKey.Some?
  {
    var addr := env.address(acc.pubKey.value);
    if a.typ == ACTION_CREATE_ACCOUNT then (l.(view := SetAccount(env, l.view, addr, Some(acc))), OK)
    else if a.typ == ACTION_REMOVE_ACCOUNT then (l.(view := SetAccount(env, l.view, addr, None)), OK)
    else if a.typ == ACTION_SUBMIT_FORM then RunSubmitForm(env, l, acc, a.data)
    else (l, UnknownRequest)
  }

  /** One action, all or nothing. */
  function Step(env: Env, l: Ledger, a: Action): (Ledger, Outcome) {
    var res := Validate(env, l, a);
    if res != OK then (l, res) else RunAction(env, l, Bumped(env, l, a), a)
  }

  /** The option that puts a genesis account into the store, under its own key's address. */
  function Genesis(env: Env, l: Ledger, acc: Account): Ledger
    requires acc.pubKey.Some?
  {
    l.(view := SetAccount(env, l.view, env.address(acc.pubKey.value), Some(acc)))
  }
}
