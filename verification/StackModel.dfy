/** What a stack of write-back caches over a base store means, as a value. */
module StackModel {
  import opened GoTypes
  import opened WriteLog

  /** A base store, or a cache with its compacted write log over another stack.
      A base that `dropsEmpty` reads an empty value back as nil. */
  datatype Stack =
    | Base(view: View, dropsEmpty: bool)
    | Layer(log: Log, below: Stack)

  function KeysOf(log: Log): set<Bytes> {
    set i | 0 <= i < |log| :: log[i].key
  }

  /** Own writes over the store below; a cached nil is looked through. */
  function Overlay(view: View, log: Log): View {
    map k | k in view.Keys + KeysOf(log) && (k in view || Lookup(log, k).Data?) ::
      if Lookup(log, k).Data? then Lookup(log, k).bytes else view[k]
  }

  function Reads(s: Stack): View {
    match s
    case Base(view, _) => view
    case Layer(log, below) => Overlay(Reads(below), log)
  }

  /** What every level of the stack reads as, top first. */
  function Levels(s: Stack): (views: seq<View>)
    ensures |views| > 0 && views[0] == Reads(s)
  {
    match s
    case Base(view, _) => [view]
    case Layer(_, below) => [Reads(s)] + Levels(below)
  }

  /** What a write of `v` makes `k` read as. */
  function Landing(s: Stack, k: Bytes, v: Value): Value {
    match s
    case Base(_, dropsEmpty) => if dropsEmpty && v == Data([]) then Nil else v
    case Layer(_, below) => if v == Nil then Read(Reads(below), k) else v
  }

  function Set(s: Stack, k: Bytes, v: Value): Stack {
    match s
    case Base(view, _) => s.(view := Put(view, k, Landing(s, k, v)))
    case Layer(log, _) => s.(log := Rewrite(log, k, v))
  }

  /** The stack after reading `k`, every missed level filled, and the value read. */
  function Get(s: Stack, k: Bytes): (Stack, Value) {
    match s
    case Base(view, _) => (s, Read(view, k))
    case Layer(log, below) =>
      if Lookup(log, k).Data? then (s, Lookup(log, k))
      else
        var (b, v) := Get(below, k);
        (Layer(Rewrite(log, k, v), b), v)
  }

  function SetAll(s: Stack, log: Log): Stack
    decreases log
  {
    if log == [] then s else SetAll(Set(s, log[0].key, log[0].value), log[1..])
  }

  function Sync(s: Stack): Stack
    requires s.Layer?
  {
    Layer([], SetAll(s.below, s.log))
  }

  /** Logs hold each key once, and a base that drops empty values holds none. */
  predicate Valid(s: Stack) {
    match s
    case Base(view, dropsEmpty) => dropsEmpty ==> forall k :: k in view ==> view[k] != []
    case Layer(log, below) => DistinctKeys(log) && Valid(below)
  }

  /** Writing `v` to `k` here hides no value behind a nil and gives the base no empty value it would drop. */
  predicate Passes(s: Stack, k: Bytes, v: Value) {
    && (v == Nil ==> k !in Reads(s))
    && (v == Data([]) ==> !Bottom(s).dropsEmpty)
  }

  /** The base store of a stack. */
  function Bottom(s: Stack): (b: Stack)
    ensures b.Base?
  {
    match s
    case Base(_, _) => s
    case Layer(_, below) => Bottom(below)
  }

  /** Every entry of every cache passes to the store below. */
  predicate Clean(s: Stack) {
    match s
    case Base(_, _) => true
    case Layer(log, below) => AllPass(log, below) && Clean(below)
  }

  predicate AllPass(log: Log, below: Stack) {
    forall i :: 0 <= i < |log| ==> Passes(below, log[i].key, log[i].value)
  }

  /** Every entry of a cache lands below as what the cache reads. */
  predicate SettledOver(log: Log, below: Stack) {
    forall i :: 0 <= i < |log| ==>
      Landing(below, log[i].key, log[i].value) == Through(log[i].value, Read(Reads(below), log[i].key))
  }

  function Through(v: Value, below: Value): Value {
    if v.Data? then v else below
  }

  // ---------- Reading ----------

  lemma OverlayReads(view: View, log: Log, k: Bytes)
    ensures Read(Overlay(view, log), k) == Through(Lookup(log, k), Read(view, k))
  {
  }

  /** A write changes what its key reads as, to what it lands as, and nothing else. */
  lemma SetReads(s: Stack, k: Bytes, v: Value)
    requires Valid(s)
    ensures Valid(Set(s, k, v))
    ensures Reads(Set(s, k, v)) == Put(Reads(s), k, Landing(s, k, v))
  {
    match s
    case Base(_, _) =>
    case Layer(log, below) =>
      RewriteKeys(log, k, v, k);
      forall q ensures Read(Reads(Set(s, k, v)), q) == Read(Put(Reads(s), k, Landing(s, k, v)), q) {
        RewriteKeys(log, k, v, q);
        OverlayReads(Reads(below), log, q);
        OverlayReads(Reads(below), Rewrite(log, k, v), q);
      }
      SameReads(Reads(Set(s, k, v)), Put(Reads(s), k, Landing(s, k, v)));
  }

  /** A cache that takes over what the store below reads at a missed key reads as before. */
  lemma FillKeepsReads(log: Log, view: View, k: Bytes)
    requires DistinctKeys(log) && !Lookup(log, k).Data?
    ensures Overlay(view, Rewrite(log, k, Read(view, k))) == Overlay(view, log)
  {
    var filled := Rewrite(log, k, Read(view, k));
    forall q ensures Read(Overlay(view, filled), q) == Read(Overlay(view, log), q) {
      RewriteKeys(log, k, Read(view, k), q);
      OverlayReads(view, log, q);
      OverlayReads(view, filled, q);
    }
    SameReads(Overlay(view, filled), Overlay(view, log));
  }

  /** A read returns what the stack reads as, and filling the missed levels changes what no level reads as. */
  lemma {:induction false} GetIsTransparent(s: Stack, k: Bytes)
    requires Valid(s)
    ensures var (t, v) := Get(s, k);
      && Valid(t) && v == Read(Reads(s), k) && Levels(t) == Levels(s) && Reads(t) == Reads(s)
      && (s.Layer? ==> t.Layer? && Levels(t.below) == Levels(s.below))
  {
    if s.Layer? {
      OverlayReads(Reads(s.below), s.log, k);
      if !Lookup(s.log, k).Data? {
        GetIsTransparent(s.below, k);
        FillKeepsReads(s.log, Reads(s.below), k);
        RewriteKeys(s.log, k, Read(Reads(s.below), k), k);
      }
    }
  }

  /** The stack below `i` of its caches, or its base if there are fewer. */
  function Level(s: Stack, i: nat): Stack {
    if i == 0 || s.Base? then s else Level(s.below, i - 1)
  }

  /** How many caches from the top on hold no value for the key. */
  function Misses(s: Stack, k: Bytes): nat {
    match s
    case Base(_, _) => 0
    case Layer(log, below) => if Holds(log, k) then 0 else 1 + Misses(below, k)
  }

  /** The cache has a value for the key. */
  predicate Holds(log: Log, k: Bytes) {
    exists i :: 0 <= i < |log| && log[i].key == k && log[i].value != Nil
  }

  /** A read writes what it returns into every cache that missed, behind the writes that are there, and leaves
      the stack from the first hit on as it was. */
  lemma {:induction false} GetFills(s: Stack, k: Bytes, i: nat)
    requires Valid(s)
    ensures var t, v := Get(s, k).0, Read(Reads(s), k);
      if i < Misses(s, k) then
        && Level(s, i).Layer? && Level(t, i).Layer?
        && Level(t, i).log == Without(Level(s, i).log, k) + [Write(k, v)]
      else Level(t, i) == Level(s, i)
  {
    hide Reads, Lookup, Without, Holds, DistinctKeys;
    GetIsTransparent(s, k);
    if s.Layer? {
      LookupHits(s.log, k);
      if !Holds(s.log, k) {
        GetIsTransparent(s.below, k);
        if i > 0 {
          GetFills(s.below, k, i - 1);
        }
      }
    }
  }

  lemma LookupHits(log: Log, k: Bytes)
    requires DistinctKeys(log)
    ensures Lookup(log, k).Data? <==> Holds(log, k)
  {
    if Mentions(log, k) {
      var i :| 0 <= i < |log| && log[i].key == k;
      LookupAt(log, i);
    } else {
      LookupNothing(log, k);
    }
  }

  /** After a read the cache holds the key exactly once, with the value read, also where it only missed it;
      so its next sync writes it once, with that value. */
  lemma ReadIsLogged(s: Stack, k: Bytes) returns (i: nat)
    requires Valid(s) && s.Layer?
    ensures var (t, v) := Get(s, k);
      && t.Layer? && i < |t.log| && t.log[i] == Write(k, v)
      && forall j :: 0 <= j < |t.log| && j != i ==> t.log[j].key != k
  {
    var (t, v) := Get(s, k);
    GetIsTransparent(s, k);
    if Lookup(s.log, k).Data? {
      LookupHits(s.log, k);
      i :| 0 <= i < |s.log| && s.log[i].key == k && s.log[i].value != Nil;
      LookupAt(s.log, i);
    } else {
      i := |t.log| - 1;
    }
  }

  /** A write stays on its own level. */
  lemma SetStaysOnTop(s: Stack, k: Bytes, v: Value)
    ensures Set(s, k, v).Layer? == s.Layer?
    ensures s.Layer? ==> Set(s, k, v).below == s.below
  {
  }

  // ---------- Syncing ----------

  /** Replaying a log leaves each key reading as what its last write lands as. */
  lemma {:induction false} SetAllReads(s: Stack, log: Log, k: Bytes)
    requires Valid(s)
    ensures Valid(SetAll(s, log))
    ensures forall q, w :: Landing(SetAll(s, log), q, w) == Landing(s, q, w)
    ensures Read(Reads(SetAll(s, log)), k) ==
            if Mentions(log, k) then Landing(s, k, Lookup(log, k)) else Read(Reads(s), k)
    decreases log
  {
    if log != [] {
      var w, t := log[0], log[1..];
      var s' := Set(s, w.key, w.value);
      SetReads(s, w.key, w.value);
      SetAllReads(s', t, k);
      MentionsCons(log, k);
      LookupCons(log, k);
    }
  }

  lemma {:induction false} LookupCons(h: Log, k: Bytes)
    requires h != []
    ensures Lookup(h, k) == if Mentions(h[1..], k) then Lookup(h[1..], k)
                            else if h[0].key == k then h[0].value else Nil
  {
    if |h| > 1 {
      var p := h[..|h| - 1];
      assert p[1..] == h[1..][..|h| - 2];
      assert h[1..][|h| - 2] == h[|h| - 1];
      if h[|h| - 1].key != k {
        LookupCons(p, k);
        assert Mentions(h[1..], k) <==> Mentions(p[1..], k) by {
          MentionsSnoc(p[1..], h[|h| - 1], k);
          assert p[1..] + [h[|h| - 1]] == h[1..];
        }
      } else {
        assert h[1..][|h| - 2].key == k;
      }
    }
  }

  lemma MentionsSnoc(h: Log, w: Write, k: Bytes)
    ensures Mentions(h + [w], k) <==> Mentions(h, k) || w.key == k
  {
    assert (h + [w])[|h|] == w;
    forall i | 0 <= i < |h| ensures (h + [w])[i] == h[i] {}
  }

  /** A sync leaves every key reading as the cache did exactly when every cached entry lands below
      as what the cache reads, that is, when no cached nil hides a value. */
  lemma SyncKeepsReads(s: Stack)
    requires Valid(s) && s.Layer?
    ensures Valid(Sync(s)) && Reads(Sync(s)) == Reads(Sync(s).below)
    ensures Reads(Sync(s)) == Reads(s) <==> SettledOver(s.log, s.below)
  {
    var below' := SetAll(s.below, s.log);
    SetAllReads(s.below, s.log, []);
    forall k ensures Read(Reads(Sync(s)), k) == Read(Reads(below'), k) {
      OverlayReads(Reads(below'), [], k);
    }
    SameReads(Reads(Sync(s)), Reads(below'));
    forall k
      ensures Read(Reads(below'), k) ==
              if Mentions(s.log, k) then Landing(s.below, k, Lookup(s.log, k)) else Read(Reads(s.below), k)
      ensures Read(Reads(s), k) == Through(Lookup(s.log, k), Read(Reads(s.below), k))
    {
      SetAllReads(s.below, s.log, k);
      OverlayReads(Reads(s.below), s.log, k);
    }
    forall i | 0 <= i < |s.log|
      ensures Lookup(s.log, s.log[i].key) == s.log[i].value && Mentions(s.log, s.log[i].key)
    {
      LookupAt(s.log, i);
    }
    if SettledOver(s.log, s.below) {
      forall k ensures Read(Reads(below'), k) == Read(Reads(s), k) {
        if Mentions(s.log, k) {
          var i :| 0 <= i < |s.log| && s.log[i].key == k;
        } else {
          LookupNothing(s.log, k);
        }
      }
      SameReads(Reads(below'), Reads(s));
    }
    if Reads(Sync(s)) == Reads(s) {
      forall i | 0 <= i < |s.log|
        ensures Landing(s.below, s.log[i].key, s.log[i].value) ==
                Through(s.log[i].value, Read(Reads(s.below), s.log[i].key))
      {
        var k := s.log[i].key;
        assert Read(Reads(below'), k) == Read(Reads(s), k);
      }
    }
  }

  /** Over a base that keeps what it is given, that is: no key with a cached nil has a value below. */
  lemma SettledOverBase(log: Log, view: View, dropsEmpty: bool)
    ensures SettledOver(log, Base(view, dropsEmpty)) <==>
            forall i :: 0 <= i < |log| ==>
              && (log[i].value == Nil ==> log[i].key !in view)
              && (log[i].value == Data([]) ==> !dropsEmpty)
  {
  }

  /** Replaying the compacted log does what replaying every write ever made would do. */
  lemma SyncReplaysHistory(s: Stack, h: Log)
    requires Valid(s)
    ensures SetAll(s, LastWrites(h)) == SetAll(s, h)
  {
    match s
    case Base(view, dropsEmpty) =>
      forall k ensures Read(Reads(SetAll(s, LastWrites(h))), k) == Read(Reads(SetAll(s, h)), k) {
        LastWritesAreLast(h, k);
        SetAllReads(s, LastWrites(h), k);
        SetAllReads(s, h, k);
      }
      SameReads(Reads(SetAll(s, LastWrites(h))), Reads(SetAll(s, h)));
      SetAllOnBase(s, h);
      SetAllOnBase(s, LastWrites(h));
    case Layer(log, below) =>
      SetAllOnLayer(s, h);
      SetAllOnLayer(s, LastWrites(h));
      DistinctIsCompact(log);
      RewriteAllIsLastWrites(log, h);
      RewriteAllIsLastWrites(log, LastWrites(h));
      CompactionIsInvisible(log, h);
  }

  lemma {:induction false} SetAllOnBase(s: Stack, h: Log)
    requires s.Base?
    ensures SetAll(s, h).Base? && SetAll(s, h).dropsEmpty == s.dropsEmpty
    decreases h
  {
    if h != [] {
      SetAllOnBase(Set(s, h[0].key, h[0].value), h[1..]);
    }
  }

  lemma {:induction false} SetAllOnLayer(s: Stack, h: Log)
    requires s.Layer?
    ensures SetAll(s, h) == Layer(RewriteAll(s.log, h), s.below)
    decreases h
  {
    if h != [] {
      SetAllOnLayer(Set(s, h[0].key, h[0].value), h[1..]);
    }
  }

  lemma {:induction false} DistinctIsCompact(log: Log)
    requires DistinctKeys(log)
    ensures LastWrites(log) == log
  {
    if log != [] {
      DistinctIsCompact(log[1..]);
      assert !Mentions(log[1..], log[0].key);
    }
  }

  // ---------- Staying clean ----------

  lemma CleanIsSettled(s: Stack)
    requires Valid(s) && Clean(s) && s.Layer?
    ensures SettledOver(s.log, s.below)
  {
  }

  /** What passes at the top of a stack passes one level down. */
  lemma PassesDown(s: Stack, k: Bytes, v: Value)
    requires s.Layer? && Passes(s, k, v)
    ensures Passes(s.below, k, v)
  {
  }

  lemma SetStaysClean(s: Stack, k: Bytes, v: Value)
    requires Valid(s) && Clean(s)
    requires s.Layer? ==> Passes(s.below, k, v)
    ensures Clean(Set(s, k, v)) && Bottom(Set(s, k, v)).dropsEmpty == Bottom(s).dropsEmpty
  {
    if s.Layer? {
      var r := Rewrite(s.log, k, v);
      forall i | 0 <= i < |r| ensures Passes(s.below, r[i].key, r[i].value) {
        if i < |r| - 1 {
          var j := WithoutOrigin(s.log, k, i);
        }
      }
    }
  }

  lemma {:induction false} WithoutOrigin(h: Log, k: Bytes, i: nat) returns (j: nat)
    requires i < |Without(h, k)|
    ensures j < |h| && h[j] == Without(h, k)[i]
  {
    if h[0].key == k {
      j := WithoutOrigin(h[1..], k, i);
      j := j + 1;
    } else if i == 0 {
      j := 0;
    } else {
      j := WithoutOrigin(h[1..], k, i - 1);
      j := j + 1;
    }
  }

  /** A clean stack reads an empty value only over a base that keeps empty values. */
  lemma {:induction false} CleanReadsPass(s: Stack, k: Bytes)
    requires Valid(s) && Clean(s)
    ensures Passes(s, k, Read(Reads(s), k))
  {
    if s.Layer? {
      CleanReadsPass(s.below, k);
      OverlayReads(Reads(s.below), s.log, k);
      if Mentions(s.log, k) {
        var i :| 0 <= i < |s.log| && s.log[i].key == k;
        LookupAt(s.log, i);
      } else {
        LookupNothing(s.log, k);
      }
    }
  }

  lemma {:induction false} GetStaysClean(s: Stack, k: Bytes)
    requires Valid(s) && Clean(s)
    ensures Clean(Get(s, k).0) && Bottom(Get(s, k).0) == Bottom(s)
  {
    if s.Layer? && !Lookup(s.log, k).Data? {
      GetStaysClean(s.below, k);
      GetIsTransparent(s.below, k);
      CleanReadsPass(s.below, k);
      var (b, v) := Get(s.below, k);
      SetStaysClean(Layer(s.log, b), k, v);
    }
  }

  lemma {:induction false} SetAllStaysClean(s: Stack, log: Log)
    requires Valid(s) && Clean(s) && AllPass(log, s) && DistinctKeys(log)
    ensures Clean(SetAll(s, log)) && Bottom(SetAll(s, log)).dropsEmpty == Bottom(s).dropsEmpty
    decreases log
  {
    if log != [] {
      var w, t := log[0], log[1..];
      var s' := Set(s, w.key, w.value);
      assert Passes(s, w.key, w.value);
      if s.Layer? {
        PassesDown(s, w.key, w.value);
      }
      SetStaysClean(s, w.key, w.value);
      SetReads(s, w.key, w.value);
      forall i | 0 <= i < |t| ensures Passes(s', t[i].key, t[i].value) {
        assert t[i] == log[i + 1] && Passes(s, log[i + 1].key, log[i + 1].value);
      }
      SetAllStaysClean(s', t);
    }
  }

  /** A sync of a clean cache keeps every read, at the cache and now also below, and leaves the stack clean. */
  lemma CleanSync(s: Stack)
    requires Valid(s) && Clean(s) && s.Layer?
    ensures Valid(Sync(s)) && Clean(Sync(s)) && Sync(s).log == []
    ensures Reads(Sync(s)) == Reads(Sync(s).below) == Reads(s)
    ensures Bottom(Sync(s)).dropsEmpty == Bottom(s).dropsEmpty
  {
    CleanIsSettled(s);
    SyncKeepsReads(s);
    SetAllStaysClean(s.below, s.log);
  }

  // ---------- Whole runs ----------

  datatype Op = GetOp(key: Bytes) | SetOp(key: Bytes, value: Bytes)

  /** The stack after a run of reads and writes at the top, and what the reads returned. */
  function Run(s: Stack, ops: seq<Op>): (Stack, seq<Value>)
    decreases ops
  {
    if ops == [] then (s, [])
    else
      match ops[0]
      case GetOp(k) =>
        var (t, v) := Get(s, k);
        var (u, vs) := Run(t, ops[1..]);
        (u, [v] + vs)
      case SetOp(k, b) => Run(Set(s, k, Data(b)), ops[1..])
  }

  /** The same run on one flat map. */
  function FlatRun(view: View, ops: seq<Op>): (View, seq<Value>)
    decreases ops
  {
    if ops == [] then (view, [])
    else
      match ops[0]
      case GetOp(k) =>
        var (w, vs) := FlatRun(view, ops[1..]);
        (w, [Read(view, k)] + vs)
      case SetOp(k, b) => FlatRun(view[k := b], ops[1..])
  }

  predicate NonEmptyWrites(ops: seq<Op>) {
    forall i :: 0 <= i < |ops| && ops[i].SetOp? ==> ops[i].value != []
  }

  /** Reads and writes through the top of a stack of any depth are reads and writes of one flat map, and
      no level below the top reads differently afterwards. Only a base that drops empty values asks that
      none be written to it. */
  lemma {:induction false} StackIsFlat(s: Stack, ops: seq<Op>)
    requires Valid(s) && (s.Base? && s.dropsEmpty ==> NonEmptyWrites(ops))
    ensures var (t, vs) := Run(s, ops);
      && Valid(t) && (Reads(t), vs) == FlatRun(Reads(s), ops)
      && (s.Layer? ==> t.Layer? && Levels(t.below) == Levels(s.below))
    decreases ops
  {
    if ops != [] {
      assert forall i :: 0 <= i < |ops[1..]| ==> ops[1..][i] == ops[i + 1];
      match ops[0]
      case GetOp(k) =>
        GetIsTransparent(s, k);
        StackIsFlat(Get(s, k).0, ops[1..]);
      case SetOp(k, b) =>
        SetReads(s, k, Data(b));
        StackIsFlat(Set(s, k, Data(b)), ops[1..]);
    }
  }

  lemma {:induction false} RunStaysClean(s: Stack, ops: seq<Op>)
    requires Valid(s) && Clean(s) && (Bottom(s).dropsEmpty ==> NonEmptyWrites(ops))
    ensures Clean(Run(s, ops).0)
    decreases ops
  {
    if ops != [] {
      assert forall i :: 0 <= i < |ops[1..]| ==> ops[1..][i] == ops[i + 1];
      match ops[0]
      case GetOp(k) =>
        GetIsTransparent(s, k);
        GetStaysClean(s, k);
        RunStaysClean(Get(s, k).0, ops[1..]);
      case SetOp(k, b) =>
        SetReads(s, k, Data(b));
        SetStaysClean(s, k, Data(b));
        RunStaysClean(Set(s, k, Data(b)), ops[1..]);
    }
  }

  /** A fresh cache over any clean stack, run and synced, leaves the stack reading as one flat map
      would after the same run; dropped instead of synced, it leaves the stack reading as it did. */
  lemma CommitIsFlat(s: Stack, ops: seq<Op>)
    requires Valid(s) && Clean(s) && (Bottom(s).dropsEmpty ==> NonEmptyWrites(ops))
    ensures var t := Run(Layer([], s), ops).0;
      && t.Layer? && Reads(t.below) == Reads(s)
      && Clean(Sync(t).below) && Reads(Sync(t).below) == FlatRun(Reads(s), ops).0
  {
    var c := Layer([], s);
    FreshReads(s);
    StackIsFlat(c, ops);
    RunStaysClean(c, ops);
    CleanSync(Run(c, ops).0);
  }

  /** A run of writes, none of nil, on a fresh cache over any stack, clean or not, commits as the same writes
      on one flat map, and leaves the stack untouched until it is synced. */
  lemma WritesCommit(s: Stack, h: Log)
    requires Valid(s)
    requires forall i :: 0 <= i < |h| ==> h[i].value.Data? && (Bottom(s).dropsEmpty ==> h[i].value.bytes != [])
    ensures var t := SetAll(Layer([], s), h);
      && t.Layer? && t.below == s && Valid(t)
      && Reads(Sync(t).below) == PutAll(Reads(s), h)
      && (Clean(s) ==> Clean(Sync(t).below))
  {
    var t := SetAll(Layer([], s), h);
    SetAllOnLayer(Layer([], s), h);
    RewriteAllIsLastWrites([], h);
    assert [] + h == h;
    LastWritesAreLast(h, []);
    assert t == Layer(LastWrites(h), s);
    forall i | 0 <= i < |t.log| ensures Passes(s, t.log[i].key, t.log[i].value) {
      var j := LastWritesOrigin(h, i);
    }
    SyncReplaysHistory(s, h);
    forall k ensures Read(Reads(Sync(t).below), k) == Read(PutAll(Reads(s), h), k) {
      SetAllReads(s, h, k);
      PutAllReads(Reads(s), h, k);
      if Mentions(h, k) {
        var i := LookupOrigin(h, k);
      }
    }
    SameReads(Reads(Sync(t).below), PutAll(Reads(s), h));
    if Clean(s) {
      SetAllStaysClean(s, t.log);
    }
  }

  function PutAll(view: View, h: Log): View
    decreases h
  {
    if h == [] then view else PutAll(Put(view, h[0].key, h[0].value), h[1..])
  }

  lemma {:induction false} PutAllReads(view: View, h: Log, k: Bytes)
    ensures Read(PutAll(view, h), k) == if Mentions(h, k) then Lookup(h, k) else Read(view, k)
    decreases h
  {
    if h != [] {
      MentionsCons(h, k);
      LookupCons(h, k);
      PutAllReads(Put(view, h[0].key, h[0].value), h[1..], k);
    }
  }

  lemma {:induction false} LastWritesOrigin(h: Log, i: nat) returns (j: nat)
    requires i < |LastWrites(h)|
    ensures j < |h| && h[j] == LastWrites(h)[i]
  {
    if Mentions(h[1..], h[0].key) {
      j := LastWritesOrigin(h[1..], i);
      j := j + 1;
    } else if i == 0 {
      j := 0;
    } else {
      j := LastWritesOrigin(h[1..], i - 1);
      j := j + 1;
    }
  }

  lemma {:induction false} LookupOrigin(h: Log, k: Bytes) returns (i: nat)
    requires Mentions(h, k)
    ensures i < |h| && h[i] == Write(k, Lookup(h, k))
  {
    if h[|h| - 1].key == k {
      i := |h| - 1;
    } else {
      var j :| 0 <= j < |h| && h[j].key == k;
      assert h[..|h| - 1][j].key == k;
      i := LookupOrigin(h[..|h| - 1], k);
    }
  }

  /** One write, and two, commit as one step and two on the flat map. */
  lemma CommitOne(s: Stack, k: Bytes, b: Bytes)
    requires Valid(s) && b != []
    ensures var t := Set(Layer([], s), k, Data(b));
      && t.below == s && Reads(Sync(t).below) == Reads(s)[k := b] && (Clean(s) ==> Clean(Sync(t).below))
  {
    var h := [Write(k, Data(b))];
    assert h[1..] == [];
    WritesCommit(s, h);
  }

  lemma CommitTwo(s: Stack, j: Bytes, a: Bytes, k: Bytes, b: Bytes)
    requires Valid(s) && a != [] && b != []
    ensures var t := Set(Set(Layer([], s), j, Data(a)), k, Data(b));
      && t.below == s && Reads(Sync(t).below) == Reads(s)[j := a][k := b] && (Clean(s) ==> Clean(Sync(t).below))
  {
    var v, w := Write(j, Data(a)), Write(k, Data(b));
    OneByOne(Layer([], s), Reads(s), v, w);
    WritesCommit(s, [v, w]);
  }

  lemma OneByOne(s: Stack, view: View, v: Write, w: Write)
    ensures SetAll(s, [v, w]) == Set(Set(s, v.key, v.value), w.key, w.value)
    ensures PutAll(view, [v, w]) == Put(Put(view, v.key, v.value), w.key, w.value)
  {
    hide Set, Put;
    assert [v, w][1..] == [w];
    assert [w][1..] == [];
    assert SetAll(Set(s, v.key, v.value), [w]) == Set(Set(s, v.key, v.value), w.key, w.value);
    assert PutAll(Put(view, v.key, v.value), [w]) == Put(Put(view, v.key, v.value), w.key, w.value);
  }

  lemma FreshReads(s: Stack)
    ensures Reads(Layer([], s)) == Reads(s)
  {
  }

  // ---------- Where the flat map ends ----------

  /** A write reads back as itself exactly when it is not a nil over a value, nor an empty value on a
      base that drops it. */
  lemma SetReadsBackIff(s: Stack, k: Bytes, v: Value)
    requires Valid(s)
    ensures Read(Reads(Set(s, k, v)), k) == v <==>
            match s
            case Base(_, dropsEmpty) => !(dropsEmpty && v == Data([]))
            case Layer(_, below) => v == Nil ==> k !in Reads(below)
  {
    SetReads(s, k, v);
  }

  /** A nil written over a value through a cache is read back as the old value, and the next sync removes it. */
  lemma NilWriteComesBack(k: Bytes, b: Bytes)
    ensures var s := Set(Layer([], Base(map[k := b], false)), k, Nil);
      && Get(s, k).1 == Data(b)
      && Reads(s) == map[k := b] && Reads(Sync(s)) == map[]
  {
    var base := Base(map[k := b], false);
    var s := Set(Layer([], base), k, Nil);
    assert s.log == [Write(k, Nil)];
    GetIsTransparent(s, k);
    SetReads(Layer([], base), k, Nil);
    FreshReads(base);
    assert s.log[1..] == [];
    assert SetAll(base, s.log) == Set(base, k, Nil);
    SyncKeepsReads(s);
  }
}
