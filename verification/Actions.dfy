/** Actions and accounts as the program holds them: objects whose fields are set in place. */
module Actions {
  import opened GoTypes
  import opened Hex
  import Form
  import L = Ledger

  class Account {
    var formIDs: seq<Bytes>
    var pubKey: Option<L.PubKey>
    var sequence: int
    var username: Bytes

    function Val(): L.Account
      reads this
    {
      L.Account(formIDs, pubKey, sequence, username)
    }

    /** A new account, at sequence zero. */
    constructor (pubKey: Option<L.PubKey>, username: Bytes)
      ensures Val() == L.Account([], pubKey, 0, username)
    {
      this.formIDs, this.pubKey, this.sequence, this.username := [], pubKey, 0, username;
    }

    constructor Decoded(a: L.Account)
      ensures Val() == a
    {
      formIDs, pubKey, sequence, username := a.formIDs, a.pubKey, a.sequence, a.username;
    }

    method AddformID(info: Form.Info)
      modifies this`formIDs
      ensures Val() == L.WithForm(old(Val()), info)
    {
      var formID := BytesToHexstr(info.formID);
      formIDs := formIDs + [formID];
    }

    /** The copy is the account itself. */
    method Copy() returns (acc: Account)
      ensures acc == this
    {
      return this;
    }
  }

  class ActionInput {
    var address: Bytes
    var sequence: int
    var signature: Option<L.Signature>
    var pubKey: Option<L.PubKey>

    function Val(): L.Input
      reads this
    {
      L.Input(address, sequence, signature, pubKey)
    }

    constructor ()
      ensures Val() == L.Input([], 0, None, None)
    {
      address, sequence, signature, pubKey := [], 0, None, None;
    }

    constructor Decoded(i: L.Input)
      ensures Val() == i
    {
      address, sequence, signature, pubKey := i.address, i.sequence, i.signature, i.pubKey;
    }

    method ValidateBasic() returns (res: L.Outcome)
      ensures res == if L.ValidateBasic(Val()) then L.OK else L.BaseInvalidInput
    {
      if |address| != L.ADDRESS_LENGTH {
        return L.BaseInvalidInput;
      }
      if sequence <= 0 {
        return L.BaseInvalidInput;
      }
      if sequence == 1 && pubKey == None {
        return L.BaseInvalidInput;
      }
      if sequence > 1 && pubKey != None {
        return L.BaseInvalidInput;
      }
      return L.OK;
    }
  }

  /** An action is passed by value; its input is shared through a pointer. */
  datatype Action = Action(typ: byte, input: ActionInput?, data: Bytes) {

    function Val(): L.Action
      reads input
    {
      L.Action(typ, if input == null then None else Some(input.Val()), data)
    }

    /** Drops the signature while it encodes, then puts it back. */
    method SignBytes(env: L.Env, chainID: Bytes) returns (signBytes: Bytes)
      requires input != null
      modifies input`signature
      ensures Val() == old(Val())
      ensures signBytes == L.SignBytes(env, chainID, Val())
    {
      signBytes := env.encChain(chainID);
      var sig := input.signature;
      input.signature := None;
      signBytes := signBytes + env.encAction(Val());
      input.signature := sig;
    }

    method Prepare(env: L.Env, pubKey: L.PubKey, next: int)
      requires input != null
      modifies input
      ensures var was := old(input.Val());
        input.Val() == L.Input(env.address(pubKey), next, was.signature,
                               if next == 1 then Some(pubKey) else was.pubKey)
    {
      input.sequence := next;
      if input.sequence == 1 {
        input.pubKey := Some(pubKey);
      }
      input.address := env.address(pubKey);
    }

    method Sign(env: L.Env, privKey: L.PrivKey, chainID: Bytes)
      requires input != null
      modifies input`signature
      ensures Val() ==
        old(Val()).(input := Some(old(input.Val()).(signature :=
          Some(env.sign(privKey, L.SignBytes(env, chainID, old(Val())))))))
    {
      var signBytes := SignBytes(env, chainID);
      input.signature := Some(env.sign(privKey, signBytes));
    }

    method Tx(env: L.Env) returns (tx: Bytes)
      ensures tx == env.encAction(Val())
    {
      return env.encAction(Val());
    }
  }

  method NewAction(typ: byte, data: Bytes) returns (a: Action)
    ensures a.input != null && fresh(a.input)
    ensures a.Val() == L.Action(typ, Some(L.Input([], 0, None, None)), data)
  {
    var input := new ActionInput();
    return Action(typ, input, data);
  }
}
