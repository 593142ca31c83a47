/** The bucket scans of bcmap.c as the C code writes them: an outer loop over
    bucket indices that runs while a count is non-zero, and an inner walk
    down each chain (here its own method) during which that count drops by
    one per node. bcmap_for and remap run down a local copy of the table's
    count; bcmap_del runs down the table's count field itself, to 0, before
    it frees the table, and DelLoop's local `count` stands for that field.
    Each is proved to do what the functional model in BcMap says, on any
    table whose count is its number of nodes. */
module Loops {
  import opened CString
  import opened Chain
  import opened BcMap
  import opened Properties

  /** A traversal result for a suffix, seen from the whole sequence after
      `d` entries have already been visited. */
  function Shifted<S>(r: Visit<S>, d: nat): Visit<S>
  {
    Visit(r.completed, r.visited + d, r.state)
  }

  /** Traversing a concatenation traverses the first part, then, unless it
      stopped early, the second from the state the first left. */
  lemma {:induction false} WalkConcat<V, S>(a: seq<Entry<V>>, b: seq<Entry<V>>, f: (Key, V, S) -> (bool, S), s: S)
    ensures Walk(a + b, f, s) ==
      var r := Walk(a, f, s);
      if r.completed then Shifted(Walk(b, f, r.state), |a|) else r
    decreases |a|
  {
    if |a| == 0 {
      assert a + b == b;
    } else {
      assert (a + b)[0] == a[0];
      assert (a + b)[1..] == a[1..] + b;
      var (go, s') := f(a[0].key, a[0].val, s);
      if go {
        WalkConcat(a[1..], b, f, s');
      }
    }
  }

  /** The inner loop of bcmap_for: the callbacks on one chain. */
  method ForChain<V, S>(chain: Bucket<V>, f: (Key, V, S) -> (bool, S), s: S) returns (r: Visit<S>)
    ensures r == Walk(chain, f, s)
  {
    var j := 0;
    var state := s;
    while j < |chain|
      invariant j <= |chain|
      invariant Walk(chain, f, s) == Shifted(Walk(chain[j..], f, state), j)
    {
      assert chain[j..][0] == chain[j];
      assert chain[j..][1..] == chain[j + 1..];
      var (go, s') := f(chain[j].key, chain[j].val, state);
      if !go {
        return Visit(false, j + 1, s');
      }
      state := s';
      j := j + 1;
    }
    assert chain[j..] == [];
    r := Visit(true, j, state);
  }

  /** One outer step of bcmap_for: the traversal from bucket i on walks
      bucket i's chain, then, unless stopped, the remaining entries. */
  lemma ForBucketStep<V, S>(bs: seq<Bucket<V>>, i: nat, f: (Key, V, S) -> (bool, S), s: S)
    requires i < |bs|
    ensures |Entries(bs[..i])| + |bs[i]| == |Entries(bs[..i + 1])| <= |Entries(bs)|
    ensures Walk(Entries(bs)[|Entries(bs[..i])|..], f, s) ==
      var r := Walk(bs[i], f, s);
      if r.completed then Shifted(Walk(Entries(bs)[|Entries(bs[..i + 1])|..], f, r.state), |bs[i]|) else r
  {
    SuffixSplit(bs, i);
    WalkConcat(bs[i], Entries(bs)[|Entries(bs[..i + 1])|..], f, s);
  }

  /** bcmap_for as written. */
  method ForLoop<V, S>(m: Map<V>, f: (Key, V, S) -> (bool, S), s: S) returns (ret: bool, visited: nat, state: S)
    requires m.count == |Entries(m.buckets)|
    ensures Visit(ret, visited, state) == For(m, f, s)
    ensures ret ==> visited == Len(m)
  {
    ghost var es := Entries(m.buckets);
    assert m.buckets[..|m.buckets|] == m.buckets;
    var count := m.count;
    var i := 0;
    visited, state := 0, s;
    while count > 0
      invariant i <= |m.buckets|
      invariant visited == |Entries(m.buckets[..i])| <= |es|
      invariant count == m.count - visited
      invariant Walk(es, f, s) == Shifted(Walk(es[visited..], f, state), visited)
      decreases |m.buckets| - i
    {
      var chain := m.buckets[i];
      ForBucketStep(m.buckets, i, f, state);
      var r := ForChain(chain, f, state);
      if !r.completed {
        return false, visited + r.visited, r.state;
      }
      visited, state := visited + |chain|, r.state;
      count := count - |chain|;
      i := i + 1;
    }
    assert es[visited..] == [];
    ret := true;
  }

  /** The teardown calls from entry j on are entry j's, then those after it. */
  lemma DelCallsUnfold<V>(es: seq<Entry<V>>, j: nat, keyfree: bool, valfree: bool)
    requires j < |es|
    ensures DelCalls(es[j..], keyfree, valfree) == FreeCalls(es[j], keyfree, valfree) + DelCalls(es[j + 1..], keyfree, valfree)
  {
    assert es[j..][0] == es[j];
    assert es[j..][1..] == es[j + 1..];
  }

  /** The inner loop of bcmap_del: the callbacks fired on one chain. */
  method DelChain<V>(chain: Bucket<V>, keyfree: bool, valfree: bool) returns (calls: seq<Freed<V>>)
    ensures calls == DelCalls(chain, keyfree, valfree)
  {
    var j := 0;
    calls := [];
    while j < |chain|
      invariant j <= |chain|
      invariant DelCalls(chain, keyfree, valfree) == calls + DelCalls(chain[j..], keyfree, valfree)
    {
      DelCallsUnfold(chain, j, keyfree, valfree);
      ghost var rest := DelCalls(chain[j + 1..], keyfree, valfree);
      assert calls + (FreeCalls(chain[j], keyfree, valfree) + rest) == (calls + FreeCalls(chain[j], keyfree, valfree)) + rest;
      calls := calls + FreeCalls(chain[j], keyfree, valfree);
      j := j + 1;
    }
    assert chain[j..] == [];
  }

  /** One outer step of bcmap_del: after the calls of bucket i's chain,
      the calls still to come are those of the entries past it. */
  lemma DelBucketStep<V>(bs: seq<Bucket<V>>, i: nat, calls: seq<Freed<V>>, more: seq<Freed<V>>, keyfree: bool, valfree: bool)
    requires i < |bs| && |Entries(bs[..i])| <= |Entries(bs)|
    requires DelCalls(Entries(bs), keyfree, valfree) == calls + DelCalls(Entries(bs)[|Entries(bs[..i])|..], keyfree, valfree)
    requires more == DelCalls(bs[i], keyfree, valfree)
    ensures |Entries(bs[..i])| + |bs[i]| == |Entries(bs[..i + 1])| <= |Entries(bs)|
    ensures DelCalls(Entries(bs), keyfree, valfree) == (calls + more) + DelCalls(Entries(bs)[|Entries(bs[..i + 1])|..], keyfree, valfree)
  {
    SuffixSplit(bs, i);
    var rest := Entries(bs)[|Entries(bs[..i + 1])|..];
    DelCallsConcat(bs[i], rest, keyfree, valfree);
    assert calls + (more + DelCalls(rest, keyfree, valfree)) == (calls + more) + DelCalls(rest, keyfree, valfree);
  }

  /** bcmap_del as written: the callbacks fired while every node is freed. */
  method DelLoop<V>(m: Map<V>, keyfree: bool, valfree: bool) returns (calls: seq<Freed<V>>)
    requires m.count == |Entries(m.buckets)|
    ensures calls == Del(m, keyfree, valfree)
  {
    ghost var es := Entries(m.buckets);
    assert m.buckets[..|m.buckets|] == m.buckets;
    var count := m.count;
    var i := 0;
    ghost var visited := 0;
    calls := [];
    while count > 0
      invariant i <= |m.buckets|
      invariant visited == |Entries(m.buckets[..i])| <= |es|
      invariant count == m.count - visited
      invariant DelCalls(es, keyfree, valfree) == calls + DelCalls(es[visited..], keyfree, valfree)
      decreases |m.buckets| - i
    {
      var chain := m.buckets[i];
      var more := DelChain(chain, keyfree, valfree);
      DelBucketStep(m.buckets, i, calls, more, keyfree, valfree);
      calls := calls + more;
      visited := visited + |chain|;
      count := count - |chain|;
      i := i + 1;
    }
    assert es[visited..] == [];
  }

  /** Replaying a concatenation replays the first part, then the second. */
  lemma {:induction false} ReplayConcat<V>(acc: Map<V>, a: seq<Entry<V>>, b: seq<Entry<V>>)
    requires WellFormed(acc)
    ensures Replay(acc, a + b) == Replay(Replay(acc, a), b)
    decreases |a|
  {
    if |a| == 0 {
      assert a + b == b;
    } else {
      assert (a + b)[0] == a[0];
      assert (a + b)[1..] == a[1..] + b;
      ReplayConcat(Place(acc, a[0].key, a[0].val), a[1..], b);
    }
  }

  /** The inner loop of remap: the full bcmap_put of every node of one
      chain. Below the load factor throughout, it is a replay of the chain. */
  method RemapChain<V>(acc: Map<V>, chain: Bucket<V>) returns (r: Map<V>)
    requires WellFormed(acc)
    requires |chain| == 0 || (acc.count + |chain| - 1) * LoadDen < acc.capacity * LoadNum
    ensures r == Replay(acc, chain)
  {
    var j := 0;
    r := acc;
    while j < |chain|
      invariant j <= |chain|
      invariant WellFormed(r) && r.capacity == acc.capacity && r.count <= acc.count + j
      invariant Replay(r, chain[j..]) == Replay(acc, chain)
    {
      LoadMonotone(r.count, acc.count + |chain| - 1, r.capacity);
      ReplayStep(r, chain, j);
      r := Put(r, chain[j].key, chain[j].val);
      j := j + 1;
    }
    assert chain[j..] == [];
  }

  /** remap as written: every old node, in bucket-then-chain order, is put
      with the full bcmap_put into a fresh array of `capacity` buckets. When
      the rebuilt capacity keeps all but the last entry below the load
      factor, no put inside it grows the table again and the result is
      Remap. */
  method RemapLoop<V>(m: Map<V>, capacity: nat) returns (r: Map<V>)
    requires m.count == |Entries(m.buckets)| && capacity > 0
    requires m.count == 0 || (m.count - 1) * LoadDen < capacity * LoadNum
    ensures r == Remap(m, capacity)
  {
    ghost var es := Entries(m.buckets);
    ghost var target := Remap(m, capacity);
    assert m.buckets[..|m.buckets|] == m.buckets;
    assert es[0..] == es;
    var oldcount := m.count;
    r := Empty(capacity);
    var i := 0;
    ghost var visited := 0;
    while oldcount > 0
      invariant i <= |m.buckets|
      invariant visited == |Entries(m.buckets[..i])| <= |es|
      invariant oldcount == m.count - visited
      invariant WellFormed(r) && r.capacity == capacity && r.count <= visited
      invariant Replay(r, es[visited..]) == target
      decreases |m.buckets| - i
    {
      var chain := m.buckets[i];
      RemapBucketStep(r, m.buckets, i, m.count);
      r := RemapChain(r, chain);
      visited := visited + |chain|;
      oldcount := oldcount - |chain|;
      i := i + 1;
    }
  }

  /** One outer step of remap: replaying bucket i's chain meets RemapChain's
      load condition and leaves the replay of the remaining entries. */
  lemma RemapBucketStep<V>(r: Map<V>, bs: seq<Bucket<V>>, i: nat, n: nat)
    requires i < |bs| && WellFormed(r) && n == |Entries(bs)|
    requires r.count <= |Entries(bs[..i])|
    requires n == 0 || (n - 1) * LoadDen < r.capacity * LoadNum
    ensures |bs[i]| == 0 || (r.count + |bs[i]| - 1) * LoadDen < r.capacity * LoadNum
    ensures |Entries(bs[..i])| + |bs[i]| == |Entries(bs[..i + 1])| <= n
    ensures Replay(r, Entries(bs)[|Entries(bs[..i])|..])
         == Replay(Replay(r, bs[i]), Entries(bs)[|Entries(bs[..i + 1])|..])
  {
    SuffixSplit(bs, i);
    ReplayConcat(r, bs[i], Entries(bs)[|Entries(bs[..i + 1])|..]);
    if |bs[i]| > 0 {
      LoadMonotone(r.count + |bs[i]| - 1, n - 1, r.capacity);
    }
  }

  /** bcmap_put as written: the growth check, the remap loop of RemapLoop
      (itself calling the full put) when the load factor is reached, then
      the chain walk. On a reachable table it is exactly Put. */
  method PutAsWritten<V>(m: Map<V>, k: Key, v: V) returns (r: Map<V>)
    requires Reachable(m) && GrowthFits(m)
    ensures r == Put(m, k, v)
  {
    var g := m;
    if m.count * LoadDen >= m.capacity * LoadNum {
      GrowthRemapNeverNests(m);
      g := RemapLoop(m, m.capacity * GrowthFactor);
    }
    r := Place(g, k, v);
  }

  /** Below the load factor, put is a plain place, so putting the next
      entry advances the replay by one step. */
  lemma ReplayStep<V>(r: Map<V>, es: seq<Entry<V>>, v: nat)
    requires WellFormed(r) && !NeedsGrow(r) && v < |es|
    ensures GrowthFits(r)
    ensures Put(r, es[v].key, es[v].val) == Place(r, es[v].key, es[v].val)
    ensures Replay(Put(r, es[v].key, es[v].val), es[v + 1..]) == Replay(r, es[v..])
  {
    assert es[v..][0] == es[v];
    assert es[v..][1..] == es[v + 1..];
  }

  /** Fewer entries stay below the load factor. */
  lemma LoadMonotone(c: nat, n: nat, capacity: nat)
    requires c <= n && n * LoadDen < capacity * LoadNum
    ensures c * LoadDen < capacity * LoadNum
  {
  }

  /** The growth inside bcmap_put meets RemapLoop's condition: the remap it
      performs never grows the table again. */
  lemma GrowthRemapNeverNests<V>(m: Map<V>)
    requires Reachable(m) && NeedsGrow(m)
    ensures m.count == 0 || (m.count - 1) * LoadDen < m.capacity * GrowthFactor * LoadNum
  {
  }
}
