/** The laws asked of the libraries can all be met at once. */
module Consistency {
  import opened GoTypes
  import opened Ledger
  import Wire
  import Form

  const W: Wire.Varints := Wire.Varints(Wire.BinaryPut, Wire.BinaryRead)

  function EncParts(parts: seq<Bytes>): Bytes {
    if parts == [] then [] else Wire.Frame(W, parts[0]) + EncParts(parts[1..])
  }

  lemma {:induction false} PartsInjective(p: seq<Bytes>, q: seq<Bytes>)
    requires EncParts(p) == EncParts(q)
    ensures p == q
    decreases p
  {
    Wire.LawfulExists();
    if p != [] && q != [] {
      Wire.FrameRoundTrip(W, p[0], EncParts(p[1..]));
      Wire.FrameRoundTrip(W, q[0], EncParts(q[1..]));
      assert EncParts(p)[|Wire.Frame(W, p[0])|..] == EncParts(p[1..]);
      assert EncParts(q)[|Wire.Frame(W, q[0])|..] == EncParts(q[1..]);
      PartsInjective(p[1..], q[1..]);
      assert p == [p[0]] + p[1..] && q == [q[0]] + q[1..];
    }
  }

  function OptPart(o: Option<Bytes>): Bytes {
    match o case None => [] case Some(b) => [1] + b
  }

  lemma OptInjective(o: Option<Bytes>, p: Option<Bytes>)
    requires OptPart(o) == OptPart(p)
    ensures o == p
  {
    if o.Some? && p.Some? {
      assert OptPart(o)[1..] == o.value && OptPart(p)[1..] == p.value;
    }
  }

  lemma IntInjective(i: int, j: int)
    requires W.put(i) == W.put(j)
    ensures i == j
  {
    Wire.LawfulExists();
    Wire.VarintRoundTrip(W, i);
    Wire.VarintRoundTrip(W, j);
  }

  function KeyBytes(k: Option<PubKey>): Option<Bytes> {
    match k case None => None case Some(key) => Some(key.bytes)
  }

  function SigBytes(s: Option<Signature>): Option<Bytes> {
    match s case None => None case Some(sig) => Some(sig.bytes)
  }

  function EncAccount(a: Option<Account>): Bytes {
    match a
    case None => [0]
    case Some(acc) =>
      [1] + EncParts([W.put(acc.sequence), acc.username, OptPart(KeyBytes(acc.pubKey))] + acc.formIDs)
  }

  lemma AccountInjective(a: Option<Account>, b: Option<Account>)
    requires EncAccount(a) == EncAccount(b)
    ensures a == b
  {
    if a.Some? && b.Some? {
      var x, y := a.value, b.value;
      var p := [W.put(x.sequence), x.username, OptPart(KeyBytes(x.pubKey))] + x.formIDs;
      var q := [W.put(y.sequence), y.username, OptPart(KeyBytes(y.pubKey))] + y.formIDs;
      assert EncAccount(a)[1..] == EncParts(p) && EncAccount(b)[1..] == EncParts(q);
      PartsInjective(p, q);
      assert p[3..] == x.formIDs && q[3..] == y.formIDs;
      IntInjective(x.sequence, y.sequence);
      assert p[0] == W.put(x.sequence) && p[1] == x.username && p[2] == OptPart(KeyBytes(x.pubKey));
      OptInjective(KeyBytes(x.pubKey), KeyBytes(y.pubKey));
    }
  }

  function ActionParts(a: Action): seq<Bytes> {
    [[a.typ], a.data] +
    match a.input
    case None => []
    case Some(i) => [i.address, W.put(i.sequence), OptPart(SigBytes(i.signature)), OptPart(KeyBytes(i.pubKey))]
  }

  function EncAction(a: Action): Bytes {
    EncParts(ActionParts(a))
  }

  lemma ActionInjective(a: Action, b: Action)
    requires EncAction(a) == EncAction(b)
    ensures a == b
  {
    var p, q := ActionParts(a), ActionParts(b);
    PartsInjective(p, q);
    assert p[0] == [a.typ] && q[0] == [b.typ] && p[1] == a.data && q[1] == b.data;
    assert [a.typ][0] == [b.typ][0];
    if a.input.Some? && b.input.Some? {
      var i, j := a.input.value, b.input.value;
      assert p[2] == i.address && q[2] == j.address && p[3] == W.put(i.sequence) && q[3] == W.put(j.sequence);
      assert p[4] == OptPart(SigBytes(i.signature)) && q[4] == OptPart(SigBytes(j.signature));
      assert p[5] == OptPart(KeyBytes(i.pubKey)) && q[5] == OptPart(KeyBytes(j.pubKey));
      IntInjective(i.sequence, j.sequence);
      OptInjective(SigBytes(i.signature), SigBytes(j.signature));
      OptInjective(KeyBytes(i.pubKey), KeyBytes(j.pubKey));
    }
  }

  ghost function Inverse<A(!new)>(enc: A -> Bytes, b: Bytes): Option<A> {
    if exists a :: enc(a) == b then
      var a :| enc(a) == b;
      Some(a)
    else None
  }

  lemma InverseIsInverse<A(!new)>(enc: A -> Bytes, a: A)
    requires forall b :: enc(b) == enc(a) ==> b == a
    ensures Inverse(enc, enc(a)) == Some(a)
  {
  }

  /** The first byte of the key, twenty times. */
  function AddressOf(k: PubKey): Bytes {
    seq(ADDRESS_LENGTH, _ => if k.bytes == [] then 0 else k.bytes[0])
  }

  ghost function Sample(): Env {
    Env(
      W,
      EncAccount, (b: Bytes) => Inverse(EncAccount, b),
      EncAction, (b: Bytes) => Inverse(EncAction, b),
      (c: Bytes) => Wire.Frame(W, c),
      AddressOf,
      (p: PrivKey) => PubKey(p.bytes),
      (p: PrivKey, m: Bytes) => Signature(p.bytes),
      (k: PubKey, m: Bytes, s: Option<Signature>) => s == Some(Signature(k.bytes)),
      (b: Bytes) => Some(Form.Info(b, b, b, b, b)),
      (c: Bytes) => Some([1] + c),
      (h: seq<Bytes>, d: Bytes) => true,
      (h: seq<Bytes>, d: Bytes) => d in h)
  }

  /** Libraries that meet every law exist, so nothing proved under the laws holds for want of a model. */
  lemma SampleIsLawful()
    ensures Lawful(Sample())
  {
    Wire.LawfulExists();
    var env := Sample();
    forall c, d, x, y | env.encChain(c) + x == env.encChain(d) + y ensures c == d {
      Wire.FrameRoundTrip(W, c, x);
      Wire.FrameRoundTrip(W, d, y);
    }
    forall a ensures env.decAccount(env.encAccount(a)) == Some(a) && env.encAccount(a) != [] {
      forall b | EncAccount(b) == EncAccount(a) ensures b == a {
        AccountInjective(a, b);
      }
      InverseIsInverse(EncAccount, a);
    }
    forall a ensures env.decAction(env.encAction(a)) == Some(a) {
      forall b | EncAction(b) == EncAction(a) ensures b == a {
        ActionInjective(a, b);
      }
      InverseIsInverse(EncAction, a);
    }
  }

  /** An encoded account starts with 0, or with 1 and then a byte under 4. */
  lemma AccountsStartLow(a: Option<Account>)
    ensures var b := EncAccount(a); b != [] && (b[0] == 1 ==> |b| > 1 && b[1] < 4)
  {
    if a.Some? {
      var acc := a.value;
      var parts := [W.put(acc.sequence), acc.username, OptPart(KeyBytes(acc.pubKey))] + acc.formIDs;
      var n := |parts[0]|;
      assert EncParts(parts)[0] == Wire.BinaryPut(n)[0];
    }
  }

  lemma NoAccountDecodes(b: Bytes)
    requires |b| > 1 && b[0] == 1 && b[1] >= 4
    ensures Sample().decAccount(b) == None
  {
    if Sample().decAccount(b).Some? {
      var a :| EncAccount(a) == b;
      AccountsStartLow(a);
    }
  }
}
