/** Histories of writes, and the compaction that keeps only the last write of each key. */
module WriteLog {
  import opened GoTypes

  datatype Write = Write(key: Bytes, value: Value)

  type Log = seq<Write>

  predicate Mentions(h: Log, k: Bytes) {
    exists i :: 0 <= i < |h| && h[i].key == k
  }

  predicate DistinctKeys(h: Log) {
    forall i, j :: 0 <= i < j < |h| ==> h[i].key != h[j].key
  }

  /** The writes of `h` that no later write overrides, in the order they were made. */
  function LastWrites(h: Log): Log {
    if h == [] then []
    else if Mentions(h[1..], h[0].key) then LastWrites(h[1..])
    else [h[0]] + LastWrites(h[1..])
  }

  function Without(h: Log, k: Bytes): Log {
    if h == [] then []
    else if h[0].key == k then Without(h[1..], k)
    else [h[0]] + Without(h[1..], k)
  }

  /** The value of the last write to `k`; `Nil` when there is none. */
  function Lookup(h: Log, k: Bytes): Value {
    if h == [] then Nil
    else if h[|h| - 1].key == k then h[|h| - 1].value
    else Lookup(h[..|h| - 1], k)
  }

  /** What one more write does to a compacted log. */
  function Rewrite(h: Log, k: Bytes, v: Value): Log {
    Without(h, k) + [Write(k, v)]
  }

  // ---------- Compaction one write at a time ----------

  lemma {:induction false} WithoutMentions(h: Log, k: Bytes, q: Bytes)
    ensures Mentions(Without(h, k), q) <==> q != k && Mentions(h, q)
  {
    if h != [] {
      WithoutMentions(h[1..], k, q);
      MentionsCons(h, q);
      if h[0].key != k {
        MentionsCons(Without(h, k), q);
      }
    }
  }

  lemma MentionsCons(h: Log, k: Bytes)
    requires h != []
    ensures Mentions(h, k) <==> h[0].key == k || Mentions(h[1..], k)
  {
  }

  lemma {:induction false} LastWritesSnoc(h: Log, w: Write)
    ensures LastWrites(h + [w]) == Rewrite(LastWrites(h), w.key, w.value)
  {
    if h == [] {
      assert h + [w] == [w];
      assert [w][1..] == [];
    } else {
      var t := h[1..];
      assert (h + [w])[1..] == t + [w];
      LastWritesSnoc(t, w);
      assert Mentions(t + [w], h[0].key) <==> Mentions(t, h[0].key) || h[0].key == w.key by {
        assert (t + [w])[|t|].key == w.key;
        forall i | 0 <= i < |t| ensures (t + [w])[i] == t[i] {}
      }
      if Mentions(t, h[0].key) {
      } else {
        assert LastWrites(h) == [h[0]] + LastWrites(t);
        assert LastWrites(h)[1..] == LastWrites(t);
      }
    }
  }

  /** The compacted log mentions each key of the history exactly once, with its last value. */
  lemma {:induction false} LastWritesAreLast(h: Log, k: Bytes)
    ensures Mentions(LastWrites(h), k) <==> Mentions(h, k)
    ensures DistinctKeys(LastWrites(h))
    ensures Lookup(LastWrites(h), k) == Lookup(h, k)
  {
    if h != [] {
      var p, w := h[..|h| - 1], h[|h| - 1];
      assert h == p + [w];
      LastWritesSnoc(p, w);
      LastWritesAreLast(p, k);
      RewriteKeys(LastWrites(p), w.key, w.value, k);
      assert Mentions(h, k) <==> Mentions(p, k) || k == w.key by {
        assert h[|p|].key == w.key;
        forall i | 0 <= i < |p| ensures h[i] == p[i] {}
      }
    }
  }

  /** A rewrite moves `k` to the end with its new value and leaves every other key alone. */
  lemma RewriteKeys(h: Log, k: Bytes, v: Value, q: Bytes)
    requires DistinctKeys(h)
    ensures DistinctKeys(Rewrite(h, k, v))
    ensures Mentions(Rewrite(h, k, v), q) <==> q == k || Mentions(h, q)
    ensures Lookup(Rewrite(h, k, v), q) == if q == k then v else Lookup(h, q)
  {
    var r, n := Rewrite(h, k, v), Without(h, k);
    assert r[|n|].key == k;
    forall i | 0 <= i < |n| ensures r[i] == n[i] {}
    WithoutMentions(h, k, q);
    WithoutMentions(h, k, k);
    WithoutDistinct(h, k);
    assert r[..|r| - 1] == n;
    if q != k {
      WithoutLookup(h, k, q);
    }
  }

  lemma {:induction false} WithoutDistinct(h: Log, k: Bytes)
    requires DistinctKeys(h)
    ensures DistinctKeys(Without(h, k))
  {
    if h != [] {
      WithoutDistinct(h[1..], k);
      WithoutMentions(h[1..], k, h[0].key);
    }
  }

  lemma {:induction false} WithoutSnoc(h: Log, w: Write, k: Bytes)
    ensures Without(h + [w], k) == Without(h, k) + (if w.key == k then [] else [w])
  {
    if h == [] {
      assert h + [w] == [w];
    } else {
      assert (h + [w])[1..] == h[1..] + [w];
      WithoutSnoc(h[1..], w, k);
    }
  }

  lemma {:induction false} WithoutLookup(h: Log, k: Bytes, q: Bytes)
    requires q != k
    ensures Lookup(Without(h, k), q) == Lookup(h, q)
  {
    if h != [] {
      var p, w := h[..|h| - 1], h[|h| - 1];
      assert h == p + [w];
      WithoutSnoc(p, w, k);
      WithoutLookup(p, k, q);
      if w.key == k {
        assert Without(h, k) == Without(p, k);
      } else {
        assert Without(h, k)[..|Without(h, k)| - 1] == Without(p, k);
      }
    }
  }

  /** Cutting out the one entry for a key is what `Without` does to a compacted log. */
  lemma {:induction false} WithoutAt(h: Log, i: nat)
    requires i < |h| && DistinctKeys(h)
    ensures Without(h, h[i].key) == h[..i] + h[i + 1..]
  {
    if i == 0 {
      WithoutNothing(h[1..], h[0].key);
    } else {
      WithoutAt(h[1..], i - 1);
      assert h[1..][..i - 1] == h[1..i];
      assert h[1..][i..] == h[i + 1..];
      assert h[..i] + h[i + 1..] == [h[0]] + (h[1..i] + h[i + 1..]);
    }
  }

  lemma {:induction false} WithoutNothing(h: Log, k: Bytes)
    requires !Mentions(h, k)
    ensures Without(h, k) == h
  {
    if h != [] {
      MentionsCons(h, k);
      WithoutNothing(h[1..], k);
    }
  }

  /** The value a distinct-key log holds for the key of its i-th entry. */
  lemma {:induction false} LookupAt(h: Log, i: nat)
    requires i < |h| && DistinctKeys(h)
    ensures Lookup(h, h[i].key) == h[i].value
  {
    if i < |h| - 1 {
      LookupAt(h[..|h| - 1], i);
    }
  }

  lemma {:induction false} LookupNothing(h: Log, k: Bytes)
    requires !Mentions(h, k)
    ensures Lookup(h, k) == Nil
  {
    if h != [] {
      assert h[|h| - 1].key != k;
      assert !Mentions(h[..|h| - 1], k);
      LookupNothing(h[..|h| - 1], k);
    }
  }

  // ---------- Compaction of a whole log ----------

  /** Rewrites a compacted log by every write of `h`, in order. */
  function RewriteAll(log: Log, h: Log): Log
    decreases h
  {
    if h == [] then log
    else RewriteAll(Rewrite(log, h[0].key, h[0].value), h[1..])
  }

  lemma {:induction false} RewriteAllIsLastWrites(g: Log, h: Log)
    ensures RewriteAll(LastWrites(g), h) == LastWrites(g + h)
    decreases h
  {
    if h == [] {
      assert g + h == g;
    } else {
      LastWritesSnoc(g, h[0]);
      RewriteAllIsLastWrites(g + [h[0]], h[1..]);
      assert g + [h[0]] + h[1..] == g + h;
    }
  }

  /** Replaying a compacted log over another log gives what replaying the full history gives. */
  lemma {:induction false} CompactionIsInvisible(g: Log, h: Log)
    ensures LastWrites(g + LastWrites(h)) == LastWrites(g + h)
  {
    if h == [] {
    } else {
      var p, w := h[..|h| - 1], h[|h| - 1];
      assert h == p + [w];
      LastWritesSnoc(p, w);
      CompactionIsInvisible(g, p);
      assert g + h == g + p + [w];
      LastWritesSnoc(g + p, w);
      var c := LastWrites(p);
      assert g + LastWrites(h) == g + Without(c, w.key) + [w];
      LastWritesSnoc(g + Without(c, w.key), w);
      WithoutUnderLastWrites(g, c, w.key);
    }
  }

  lemma {:induction false} WithoutUnderLastWrites(g: Log, c: Log, k: Bytes)
    ensures Without(LastWrites(g + Without(c, k)), k) == Without(LastWrites(g + c), k)
  {
    if c != [] {
      var p, w := c[..|c| - 1], c[|c| - 1];
      assert c == p + [w];
      WithoutSnoc(p, w, k);
      WithoutUnderLastWrites(g, p, k);
      assert g + c == g + p + [w];
      LastWritesSnoc(g + p, w);
      if w.key == k {
        assert Without(c, k) == Without(p, k);
        WithoutTwice(LastWrites(g + p), w, k);
      } else {
        assert g + Without(c, k) == g + Without(p, k) + [w];
        LastWritesSnoc(g + Without(p, k), w);
        var a, b := LastWrites(g + Without(p, k)), LastWrites(g + p);
        WithoutSnoc(Without(a, w.key), w, k);
        WithoutSnoc(Without(b, w.key), w, k);
        WithoutCommutes(a, w.key, k);
        WithoutCommutes(b, w.key, k);
      }
    }
  }

  lemma {:induction false} WithoutTwice(h: Log, w: Write, k: Bytes)
    requires w.key == k
    ensures Without(Without(h, k) + [w], k) == Without(h, k)
  {
    WithoutSnoc(Without(h, k), w, k);
    WithoutMentions(h, k, k);
    WithoutNothing(Without(h, k), k);
  }

  lemma {:induction false} WithoutCommutes(h: Log, j: Bytes, k: Bytes)
    ensures Without(Without(h, j), k) == Without(Without(h, k), j)
  {
    if h != [] {
      WithoutCommutes(h[1..], j, k);
    }
  }
}
