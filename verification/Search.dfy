/** The search pipeline: a producer, two checkers and a collector joined by three unbuffered channels.
    A move is what one goroutine can do next, or two of them together when one sends what the other
    receives; an interleaving is any sequence of enabled moves. */
module Search {
  import opened GoTypes

  /** A check that gives no answer panics. */
  datatype Config = Config(keys: seq<Bytes>, fun1: Bytes -> Option<bool>, fun2: Bytes -> Option<bool>)

  datatype Producer = Sizing | Asking(i: nat) | Sending(i: nat, data: Bytes) | Closed

  datatype Checker = Receiving | Testing(data: Bytes) | Passing(data: Bytes) | Leaving | Stopped

  /** `closes` counts how often each channel was closed; `crashed` stands for a panic over a closed
      channel, `panicked` for one in a check. */
  datatype Pipeline = Pipeline(
    producer: Producer, check1: Checker, check2: Checker,
    datas: seq<Bytes>, returned: bool,
    closes1: nat, closes2: nat, closes3: nat, crashed: bool, panicked: bool)

  datatype Move =
    | Size | Ask | Send1 | Close1
    | Test1 | Send2 | Leave1 | Close2
    | Test2 | Send3 | Leave2 | Close3
    | Leave3

  function Start(): Pipeline {
    Pipeline(Sizing, Receiving, Receiving, [], false, 0, 0, 0, false, false)
  }

  /** A send waits for its receiver, unless its channel is closed, and then it crashes. A receive waits
      for a sender, unless its channel is closed, and then it ends the loop. */
  predicate Enabled(c: Config, s: Pipeline, m: Move) {
    && !s.crashed && !s.panicked
    && match m
       case Size => s.producer.Sizing?
       case Ask => s.producer.Asking? && s.producer.i < |c.keys|
       case Close1 => s.producer.Asking? && s.producer.i >= |c.keys|
       case Send1 => s.producer.Sending? && (s.closes1 > 0 || s.check1.Receiving?)
       case Test1 => s.check1.Testing?
       case Leave1 => s.check1.Receiving? && s.closes1 > 0
       case Close2 => s.check1.Leaving?
       case Send2 => s.check1.Passing? && (s.closes2 > 0 || s.check2.Receiving?)
       case Test2 => s.check2.Testing?
       case Leave2 => s.check2.Receiving? && s.closes2 > 0
       case Close3 => s.check2.Leaving?
       case Send3 => s.check2.Passing? && (s.closes3 > 0 || !s.returned)
       case Leave3 => !s.returned && s.closes3 > 0
  }

  function Test(fun: Bytes -> Option<bool>, data: Bytes): Checker {
    match fun(data)
    case None => Testing(data)
    case Some(passes) => if passes then Passing(data) else Receiving
  }

  function Do(c: Config, s: Pipeline, m: Move): Pipeline
    requires Enabled(c, s, m)
  {
    match m
    case Size => s.(producer := Asking(0))
    case Ask => s.(producer := Sending(s.producer.i, c.keys[s.producer.i]))
    case Send1 =>
      if s.closes1 > 0 then s.(crashed := true)
      else s.(producer := Asking(s.producer.i + 1), check1 := Testing(s.producer.data))
    case Close1 => if s.closes1 > 0 then s.(crashed := true) else s.(producer := Closed, closes1 := 1)
    case Test1 => s.(check1 := Test(c.fun1, s.check1.data), panicked := c.fun1(s.check1.data).None?)
    case Send2 =>
      if s.closes2 > 0 then s.(crashed := true) else s.(check1 := Receiving, check2 := Testing(s.check1.data))
    case Leave1 => s.(check1 := Leaving)
    case Close2 => if s.closes2 > 0 then s.(crashed := true) else s.(check1 := Stopped, closes2 := 1)
    case Test2 => s.(check2 := Test(c.fun2, s.check2.data), panicked := c.fun2(s.check2.data).None?)
    case Send3 =>
      if s.closes3 > 0 then s.(crashed := true)
      else s.(check2 := Receiving, datas := s.datas + [s.check2.data])
    case Leave2 => s.(check2 := Leaving)
    case Close3 => if s.closes3 > 0 then s.(crashed := true) else s.(check2 := Stopped, closes3 := 1)
    case Leave3 => s.(returned := true)
  }

  // ---------- What a search should return ----------

  /** The keys that pass both checks, in order. */
  function Want(c: Config, keys: seq<Bytes>): seq<Bytes> {
    if keys == [] then []
    else (if Passes(c, keys[0]) then [keys[0]] else []) + Want(c, keys[1..])
  }

  predicate Passes(c: Config, key: Bytes) {
    c.fun1(key) == Some(true) && c.fun2(key) == Some(true)
  }

  /** The indices from `i` on whose keys pass. */
  function Positions(c: Config, i: nat): seq<nat>
    requires i <= |c.keys|
    decreases |c.keys| - i
  {
    if i == |c.keys| then [] else (if Passes(c, c.keys[i]) then [i] else []) + Positions(c, i + 1)
  }

  lemma {:induction false} PositionsAreExact(c: Config, i: nat)
    requires i <= |c.keys|
    ensures var at := Positions(c, i);
      && (forall j :: 0 <= j < |at| ==> i <= at[j] < |c.keys|)
      && (forall j, k :: 0 <= j < k < |at| ==> at[j] < at[k])
      && (forall n :: i <= n < |c.keys| ==> (n in at <==> Passes(c, c.keys[n])))
    decreases |c.keys| - i
  {
    hide Passes;
    if i < |c.keys| {
      PositionsAreExact(c, i + 1);
    }
  }

  lemma {:induction false} WantAtPositions(c: Config, i: nat)
    requires i <= |c.keys|
    ensures |Want(c, c.keys[i..])| == |Positions(c, i)|
    ensures forall j :: 0 <= j < |Positions(c, i)| && Positions(c, i)[j] < |c.keys| ==>
              Want(c, c.keys[i..])[j] == c.keys[Positions(c, i)[j]]
    decreases |c.keys| - i
  {
    if i < |c.keys| {
      WantAtPositions(c, i + 1);
      assert c.keys[i..][0] == c.keys[i] && c.keys[i..][1..] == c.keys[i + 1..];
    }
  }

  /** Nothing lost, nothing repeated: the result is the keys at rising indices, which are exactly the
      indices whose keys pass. */
  lemma WantIsExact(c: Config) returns (at: seq<nat>)
    ensures forall j, k :: 0 <= j < k < |at| ==> at[j] < at[k]
    ensures forall i :: 0 <= i < |c.keys| ==> (i in at <==> Passes(c, c.keys[i]))
    ensures |at| == |Want(c, c.keys)|
    ensures forall j :: 0 <= j < |at| ==> at[j] < |c.keys| && Want(c, c.keys)[j] == c.keys[at[j]]
  {
    at := Positions(c, 0);
    PositionsAreExact(c, 0);
    WantAtPositions(c, 0);
    assert c.keys[0..] == c.keys;
  }

  // ---------- The invariant ----------

  /** What the pipeline will still deliver of what each stage holds. */
  function Pending2(c: Config, s: Checker): seq<Bytes> {
    match s
    case Testing(data) => if c.fun2(data) == Some(true) then [data] else []
    case Passing(data) => [data]
    case _ => []
  }

  function Pending1(c: Config, s: Checker): seq<Bytes> {
    match s
    case Testing(data) => if Passes(c, data) then [data] else []
    case Passing(data) => if c.fun2(data) == Some(true) then [data] else []
    case _ => []
  }

  function PendingP(c: Config, s: Producer): seq<Bytes> {
    match s
    case Sizing => Want(c, c.keys)
    case Asking(i) => if i <= |c.keys| then Want(c, c.keys[i..]) else []
    case Sending(i, data) => if i <= |c.keys| then Want(c, c.keys[i..]) else []
    case Closed => []
  }

  function Delivery(c: Config, s: Pipeline): seq<Bytes> {
    s.datas + Pending2(c, s.check2) + Pending1(c, s.check1) + PendingP(c, s.producer)
  }

  predicate ClosedInOrder(s: Pipeline) {
    && s.closes1 == (if s.producer.Closed? then 1 else 0)
    && s.closes2 == (if s.check1.Stopped? then 1 else 0)
    && s.closes3 == (if s.check2.Stopped? then 1 else 0)
    && (s.check1.Leaving? || s.check1.Stopped? ==> s.producer.Closed?)
    && (s.check2.Leaving? || s.check2.Stopped? ==> s.check1.Stopped?)
    && (s.returned ==> s.check2.Stopped?)
  }

  predicate InRange(c: Config, p: Producer) {
    match p
    case Asking(i) => i <= |c.keys|
    case Sending(i, data) => i < |c.keys| && data == c.keys[i]
    case _ => true
  }

  predicate Inv(c: Config, s: Pipeline) {
    && !s.crashed
    && (s.panicked ==> s.check1.Testing? || s.check2.Testing?)
    && ClosedInOrder(s)
    && InRange(c, s.producer)
    && Delivery(c, s) == Want(c, c.keys)
  }

  /** Every move keeps what will be delivered: taken out of one stage, it is in the next. */
  lemma MoveKeepsDelivery(c: Config, s: Pipeline, m: Move)
    requires Inv(c, s) && Enabled(c, s, m)
    ensures Delivery(c, Do(c, s, m)) == Delivery(c, s)
  {
    if m.Send1? || m.Send2? || m.Send3? {
      SendKeepsDelivery(c, s, m);
    } else {
      OthersKeepPending(c, s, m);
      hide Inv, Enabled, Do, PendingP, Pending1, Pending2;
    }
  }

  /** A move that sends nothing leaves what each stage will deliver. */
  lemma OthersKeepPending(c: Config, s: Pipeline, m: Move)
    requires InRange(c, s.producer) && Enabled(c, s, m) && !m.Send1? && !m.Send2? && !m.Send3?
    ensures var t := Do(c, s, m);
      && t.datas == s.datas && PendingP(c, t.producer) == PendingP(c, s.producer)
      && Pending1(c, t.check1) == Pending1(c, s.check1) && Pending2(c, t.check2) == Pending2(c, s.check2)
  {
    if m.Size? {
      assert c.keys[0..] == c.keys;
    } else if m.Close1? {
      assert c.keys[s.producer.i..] == [];
    }
    hide Want;
  }

  /** A send moves what it takes one stage on. */
  lemma SendKeepsDelivery(c: Config, s: Pipeline, m: Move)
    requires Inv(c, s) && Enabled(c, s, m) && (m.Send1? || m.Send2? || m.Send3?)
    ensures Delivery(c, Do(c, s, m)) == Delivery(c, s)
  {
    var t := Do(c, s, m);
    if m.Send1? {
      TakeFromProducer(c, s.producer.i);
    }
    hide Want, Passes, Delivery;
    Regroup(s.datas, Pending2(c, s.check2), Pending1(c, s.check1), PendingP(c, s.producer),
            t.datas, Pending2(c, t.check2), Pending1(c, t.check1), PendingP(c, t.producer));
    DeliveryIs(c, s);
    DeliveryIs(c, t);
  }

  lemma DeliveryIs(c: Config, s: Pipeline)
    ensures Delivery(c, s) ==
            s.datas + Pending2(c, s.check2) + Pending1(c, s.check1) + PendingP(c, s.producer)
  {
  }

  /** Moving something between two neighbours of a concatenation leaves the whole as it was. */
  lemma Regroup<T>(d: seq<T>, x: seq<T>, y: seq<T>, z: seq<T>, d': seq<T>, x': seq<T>, y': seq<T>, z': seq<T>)
    requires
      || (d == d' && x == x' && y + z == y' + z')
      || (d == d' && z == z' && x + y == x' + y')
      || (y == y' && z == z' && d + x == d' + x')
    ensures d + x + y + z == d' + x' + y' + z'
  {
    assert d + x + y + z == (d + x) + (y + z);
    assert d' + x' + y' + z' == (d' + x') + (y' + z');
    assert d + x + y + z == d + (x + y) + z;
    assert d' + x' + y' + z' == d' + (x' + y') + z';
  }

  /** Handing key `i` over splits it off what the producer still has to deliver. */
  lemma TakeFromProducer(c: Config, i: nat)
    requires i < |c.keys|
    ensures Want(c, c.keys[i..]) == Pending1(c, Testing(c.keys[i])) + Want(c, c.keys[i + 1..])
  {
  }

  lemma MoveKeepsInv(c: Config, s: Pipeline, m: Move)
    requires Inv(c, s) && Enabled(c, s, m)
    ensures Inv(c, Do(c, s, m))
  {
    hide Want, Delivery;
    MoveKeepsDelivery(c, s, m);
  }

  lemma StartHoldsInv(c: Config)
    ensures Inv(c, Start())
  {
  }

  /** What a checker holds after its test has passed it. */
  predicate Tested(c: Config, s: Pipeline) {
    && (s.check1.Passing? ==> c.fun1(s.check1.data) == Some(true))
    && (s.check2.Testing? || s.check2.Passing? ==> c.fun1(s.check2.data) == Some(true))
    && (s.check2.Passing? ==> c.fun2(s.check2.data) == Some(true))
  }

  /** The second check is asked only of keys that pass the first. */
  lemma {:induction false} SecondCheckSeesPassed(c: Config, moves: seq<Move>)
    requires Run(c, Start(), moves).Some?
    ensures Tested(c, Run(c, Start(), moves).value)
  {
    RunKeepsTested(c, Start(), moves);
  }

  lemma {:induction false} RunKeepsTested(c: Config, s: Pipeline, moves: seq<Move>)
    requires Tested(c, s) && Run(c, s, moves).Some?
    ensures Tested(c, Run(c, s, moves).value)
    decreases moves
  {
    hide Tested, Do, Enabled;
    if moves != [] {
      MoveKeepsTested(c, s, moves[0]);
      RunKeepsTested(c, Do(c, s, moves[0]), moves[1..]);
    }
  }

  // ---------- Runs ----------

  /** The pipeline after a run, if every move of it was enabled when it was made. */
  function Run(c: Config, s: Pipeline, moves: seq<Move>): Option<Pipeline>
    decreases moves
  {
    if moves == [] then Some(s)
    else if Enabled(c, s, moves[0]) then Run(c, Do(c, s, moves[0]), moves[1..])
    else None
  }

  /** How many moves are left at most. */
  function Measure(c: Config, s: Pipeline): int {
    ProducerMeasure(c, s.producer) + CheckerMeasure(s.check1, 3) + CheckerMeasure(s.check2, 1)
    + (if s.returned then 0 else 1) - (if s.panicked then 1 else 0)
  }

  function ProducerMeasure(c: Config, p: Producer): int {
    match p
    case Sizing => 6 * |c.keys| + 2
    case Asking(i) => 6 * (|c.keys| - i) + 1
    case Sending(i, _) => 6 * (|c.keys| - i)
    case Closed => 0
  }

  function CheckerMeasure(s: Checker, send: int): int {
    match s
    case Receiving => 2
    case Testing(_) => 3 + send
    case Passing(_) => 2 + send
    case Leaving => 1
    case Stopped => 0
  }

  lemma MoveDecreases(c: Config, s: Pipeline, m: Move)
    requires Inv(c, s) && Enabled(c, s, m)
    ensures 0 <= Measure(c, Do(c, s, m)) < Measure(c, s)
  {
    hide Want, Delivery;
  }

  /** Until the collector returns or a check panics, some move is enabled. */
  lemma NoDeadlock(c: Config, s: Pipeline) returns (m: Move)
    requires Inv(c, s) && !s.returned && !s.panicked
    ensures Enabled(c, s, m)
  {
    hide Want, Delivery;
    m := match s.check2
      case Testing(_) => Test2
      case Passing(_) => Send3
      case Leaving => Close3
      case Stopped => Leave3
      case Receiving =>
        match s.check1
        case Testing(_) => Test1
        case Passing(_) => Send2
        case Leaving => Close2
        case Stopped => Leave2
        case Receiving =>
          match s.producer
          case Sizing => Size
          case Asking(i) => if i < |c.keys| then Ask else Close1
          case Sending(_, _) => Send1
          case Closed => Leave1;
  }

  lemma {:induction false} RunKeepsInv(c: Config, s: Pipeline, moves: seq<Move>)
    requires Inv(c, s) && Run(c, s, moves).Some?
    ensures Inv(c, Run(c, s, moves).value)
    ensures |moves| + Measure(c, Run(c, s, moves).value) <= Measure(c, s)
    ensures 0 <= Measure(c, Run(c, s, moves).value)
    decreases moves
  {
    hide Inv, Enabled, Do, Measure;
    if moves != [] {
      MoveKeepsInv(c, s, moves[0]);
      MoveDecreases(c, s, moves[0]);
      RunKeepsInv(c, Do(c, s, moves[0]), moves[1..]);
    } else {
      MeasureIsNatural(c, s);
    }
  }

  lemma MeasureIsNatural(c: Config, s: Pipeline)
    requires Inv(c, s)
    ensures 0 <= Measure(c, s)
  {
    hide Want, Delivery;
  }

  /** Whatever the interleaving, no goroutine sends on a closed channel or closes one twice; when the
      collector has returned it has exactly the keys that pass, in order, and all three channels have
      been closed once by stages that have all stopped. */
  lemma SearchIsCorrect(c: Config, moves: seq<Move>)
    requires Run(c, Start(), moves).Some?
    ensures var s := Run(c, Start(), moves).value;
      && !s.crashed && s.closes1 <= 1 && s.closes2 <= 1 && s.closes3 <= 1
      && (s.returned ==>
            && s.datas == Want(c, c.keys)
            && s.closes1 == s.closes2 == s.closes3 == 1
            && s.producer.Closed? && s.check1.Stopped? && s.check2.Stopped?)
  {
    StartHoldsInv(c);
    RunKeepsInv(c, Start(), moves);
    var s := Run(c, Start(), moves).value;
    hide Want;
    if s.returned {
      assert Delivery(c, s) == s.datas + [] + [] + [];
    }
  }

  /** Every run ends within six moves a key and seven more, and a run that cannot go on has returned, if no
      check has panicked. */
  lemma SearchEnds(c: Config, moves: seq<Move>)
    requires Run(c, Start(), moves).Some?
    ensures |moves| <= 6 * |c.keys| + 7
    ensures var s := Run(c, Start(), moves).value;
      (forall m :: !Enabled(c, s, m)) ==> s.returned || s.panicked
  {
    StartHoldsInv(c);
    RunKeepsInv(c, Start(), moves);
    var s := Run(c, Start(), moves).value;
    if !s.returned && !s.panicked {
      var m := NoDeadlock(c, s);
    }
  }

  // ---------- When a check panics ----------

  /** The first check answers, and so does the second if it is asked. */
  predicate Answered(c: Config, key: Bytes) {
    c.fun1(key).Some? && (c.fun1(key) == Some(true) ==> c.fun2(key).Some?)
  }

  predicate Holding(s: Checker, key: Bytes) {
    (s.Testing? || s.Passing?) && s.data == key
  }

  /** How many keys the producer has handed over. */
  function Handed(c: Config, p: Producer): nat {
    match p
    case Sizing => 0
    case Asking(i) => i
    case Sending(i, _) => i
    case Closed => |c.keys|
  }

  /** Every key handed over is answered unless a checker has it still, checkers have keys only, and a check that
      panicked has one that is not answered. */
  predicate Watched(c: Config, s: Pipeline) {
    && (forall n :: 0 <= n < |c.keys| && n < Handed(c, s.producer) ==>
          Answered(c, c.keys[n]) || Holding(s.check1, c.keys[n]) || Holding(s.check2, c.keys[n]))
    && (s.check1.Testing? || s.check1.Passing? ==> s.check1.data in c.keys)
    && (s.check2.Testing? || s.check2.Passing? ==> s.check2.data in c.keys)
    && (s.panicked ==>
          || (s.check1.Testing? && !Answered(c, s.check1.data))
          || (s.check2.Testing? && !Answered(c, s.check2.data)))
  }

  lemma MoveKeepsWatched(c: Config, s: Pipeline, m: Move)
    requires Inv(c, s) && Tested(c, s) && Watched(c, s) && Enabled(c, s, m)
    ensures Watched(c, Do(c, s, m))
  {
    hide Want, Delivery;
  }

  lemma MoveKeepsTested(c: Config, s: Pipeline, m: Move)
    requires Tested(c, s) && Enabled(c, s, m)
    ensures Tested(c, Do(c, s, m))
  {
  }

  lemma {:induction false} RunKeepsWatched(c: Config, s: Pipeline, moves: seq<Move>)
    requires Inv(c, s) && Tested(c, s) && Watched(c, s) && Run(c, s, moves).Some?
    ensures Watched(c, Run(c, s, moves).value)
    decreases moves
  {
    hide Inv, Tested, Watched, Do, Enabled;
    if moves != [] {
      MoveKeepsInv(c, s, moves[0]);
      MoveKeepsTested(c, s, moves[0]);
      MoveKeepsWatched(c, s, moves[0]);
      RunKeepsWatched(c, Do(c, s, moves[0]), moves[1..]);
    }
  }

  /** In every interleaving a check panics only if some key is not answered, and the collector returns only if
      all are; so a search that cannot go on has panicked exactly if some key is not answered. */
  lemma SearchPanicsExactly(c: Config, moves: seq<Move>)
    requires Run(c, Start(), moves).Some?
    ensures var s := Run(c, Start(), moves).value;
      && (s.panicked ==> exists k :: k in c.keys && !Answered(c, k))
      && (s.returned ==> forall k :: k in c.keys ==> Answered(c, k))
      && ((forall m :: !Enabled(c, s, m)) ==>
            (s.panicked <==> exists k :: k in c.keys && !Answered(c, k)) && (s.returned <==> !s.panicked))
  {
    StartHoldsInv(c);
    RunKeepsWatched(c, Start(), moves);
    SearchIsCorrect(c, moves);
    SearchEnds(c, moves);
    var s := Run(c, Start(), moves).value;
    hide Want, Answered, Enabled, Run;
    if s.returned {
      forall k | k in c.keys ensures Answered(c, k) {
        var n :| 0 <= n < |c.keys| && c.keys[n] == k;
      }
    }
  }
}
