/** What bcmap.c promises about its table, proved of the model in BcMap. */
module Properties {
  import opened Wrappers
  import opened CString
  import opened Djb2
  import opened Chain
  import opened BcMap

  // ---------------------------------------------------------------------
  // The bucket array, read as one sequence of entries
  // ---------------------------------------------------------------------

  lemma EntriesSnoc<V>(bs: seq<Bucket<V>>, c: Bucket<V>)
    ensures Entries(bs + [c]) == Entries(bs) + c
  {
    assert (bs + [c])[..|bs|] == bs;
  }

  /** The entries of the first n + 1 buckets are those of the first n, then bucket n. */
  lemma EntriesPrefixStep<V>(bs: seq<Bucket<V>>, n: nat)
    requires n < |bs|
    ensures Entries(bs[..n + 1]) == Entries(bs[..n]) + bs[n]
  {
    assert bs[..n + 1][..n] == bs[..n];
  }

  /** The entries of the first n buckets start the entries of the whole array. */
  lemma {:induction false} EntriesPrefix<V>(bs: seq<Bucket<V>>, n: nat)
    requires n <= |bs|
    ensures Entries(bs[..n]) <= Entries(bs)
    decreases |bs| - n
  {
    if n < |bs| {
      EntriesPrefix(bs, n + 1);
      EntriesPrefixStep(bs, n);
    } else {
      assert bs[..n] == bs;
    }
  }

  /** The entries from bucket i on are bucket i's chain followed by the
      entries from bucket i + 1 on. */
  lemma SuffixSplit<V>(bs: seq<Bucket<V>>, i: nat)
    requires i < |bs|
    ensures |Entries(bs[..i])| + |bs[i]| == |Entries(bs[..i + 1])| <= |Entries(bs)|
    ensures Entries(bs)[|Entries(bs[..i])|..] == bs[i] + Entries(bs)[|Entries(bs[..i + 1])|..]
  {
    EntriesPrefix(bs, i + 1);
    EntriesPrefixStep(bs, i);
    var es, v := Entries(bs), |Entries(bs[..i])|;
    assert es[v..v + |bs[i]|] == bs[i];
    assert es[v..] == es[v..v + |bs[i]|] + es[v + |bs[i]|..];
  }

  /** Replacing one chain changes the number of entries by the difference in its length. */
  lemma {:induction false} EntriesUpdateLength<V>(bs: seq<Bucket<V>>, i: nat, c: Bucket<V>)
    requires i < |bs|
    ensures |Entries(bs[i := c])| == |Entries(bs)| - |bs[i]| + |c|
    decreases |bs|
  {
    var last := |bs| - 1;
    if i == last {
      assert bs[i := c][..last] == bs[..last];
    } else {
      assert bs[i := c][..last] == bs[..last][i := c];
      EntriesUpdateLength(bs[..last], i, c);
    }
  }

  /** An entry among the first n buckets of a well-placed array hashes below n. */
  lemma {:induction false} PrefixIndexBound<V>(bs: seq<Bucket<V>>, capacity: nat, n: nat)
    requires Placed(bs, capacity) && n <= |bs|
    ensures forall p :: 0 <= p < |Entries(bs[..n])| ==> Index(Entries(bs[..n])[p].key, capacity) < n
    decreases n
  {
    if n > 0 {
      PrefixIndexBound(bs, capacity, n - 1);
      EntriesPrefixStep(bs, n - 1);
      var prev := Entries(bs[..n - 1]);
      forall p | 0 <= p < |Entries(bs[..n])|
        ensures Index(Entries(bs[..n])[p].key, capacity) < n
      {
        if p >= |prev| {
          assert Entries(bs[..n])[p] == bs[n - 1][p - |prev|];
        }
      }
    }
  }

  /** The entries of the first n buckets carry no duplicate key. */
  lemma {:induction false} PrefixUnique<V>(bs: seq<Bucket<V>>, capacity: nat, n: nat)
    requires Placed(bs, capacity) && n <= |bs|
    requires forall i :: 0 <= i < |bs| ==> UniqueKeys(bs[i])
    ensures UniqueKeys(Entries(bs[..n]))
    decreases n
  {
    if n > 0 {
      PrefixUnique(bs, capacity, n - 1);
      PrefixIndexBound(bs, capacity, n - 1);
      EntriesPrefixStep(bs, n - 1);
      var prev := Entries(bs[..n - 1]);
      UniqueAppend(prev, bs[n - 1]);
    }
  }

  /** A valid table holds each key at most once across all its buckets. */
  lemma EntriesUnique<V>(m: Map<V>)
    requires Valid(m)
    ensures UniqueKeys(Entries(m.buckets))
  {
    PrefixUnique(m.buckets, m.capacity, |m.buckets|);
    assert m.buckets[..|m.buckets|] == m.buckets;
  }

  /** Searching the first n buckets in order finds a key only in its own bucket. */
  lemma {:induction false} LookupPrefix<V>(bs: seq<Bucket<V>>, capacity: nat, n: nat, k: Key)
    requires Placed(bs, capacity) && n <= |bs|
    ensures Lookup(Entries(bs[..n]), k) ==
      if Index(k, capacity) < n then Lookup(bs[Index(k, capacity)], k) else None
    decreases n
  {
    if n > 0 {
      LookupPrefix(bs, capacity, n - 1, k);
      EntriesPrefixStep(bs, n - 1);
      LookupAppend(Entries(bs[..n - 1]), bs[n - 1], k);
      if Index(k, capacity) != n - 1 {
        assert !HasKey(bs[n - 1], k);
      }
    }
  }

  /** bcmap_get, which searches one bucket, agrees with a search of every
      entry in bucket-then-chain order. */
  lemma GetMatchesEntries<V>(m: Map<V>, k: Key)
    requires Valid(m)
    ensures Get(m, k) == Lookup(Entries(m.buckets), k)
  {
    LookupPrefix(m.buckets, m.capacity, |m.buckets|, k);
    assert m.buckets[..|m.buckets|] == m.buckets;
  }

  /** In a valid table, get returns v for k exactly when the pair (k, v) is stored. */
  lemma GetMeansStored<V>(m: Map<V>, k: Key, v: V)
    requires Valid(m)
    ensures Get(m, k) == Some(v) <==> Entry(k, v) in Entries(m.buckets)
  {
    GetMatchesEntries(m, k);
    EntriesUnique(m);
    LookupUnique(Entries(m.buckets), k, v);
  }

  // ---------------------------------------------------------------------
  // Placing one key (the chain walk of bcmap_put)
  // ---------------------------------------------------------------------

  /** After placing (k, v), get(k) is v and every other key reads as before. */
  lemma GetAfterPlace<V>(m: Map<V>, k: Key, v: V, k': Key)
    requires WellFormed(m)
    ensures Get(Place(m, k, v), k') == if k' == k then Some(v) else Get(m, k')
  {
    var r := Place(m, k, v);
    var i := Index(k, m.capacity);
    var chain := m.buckets[i];
    if Index(k', m.capacity) == i {
      if Get(m, k).None? {
        LookupAppend(chain, [Entry(k, v)], k');
      } else {
        var j := FindIndex(chain, k).value;
        var chain' := chain[j := Entry(chain[j].key, v)];
        FindIndexKeysOnly(chain, chain', k');
      }
    }
  }

  /** Placing a key keeps the table invariant. */
  lemma ValidAfterPlace<V>(m: Map<V>, k: Key, v: V)
    requires Valid(m)
    ensures Valid(Place(m, k, v))
  {
    var r := Place(m, k, v);
    var i := Index(k, m.capacity);
    EntriesUpdateLength(m.buckets, i, r.buckets[i]);
    assert r.buckets == m.buckets[i := r.buckets[i]];
    if Get(m, k).None? {
      UniqueAppend(m.buckets[i], [Entry(k, v)]);
    } else {
      var j := FindIndex(m.buckets[i], k).value;
      assert forall q :: 0 <= q < |r.buckets[i]| ==> r.buckets[i][q].key == m.buckets[i][q].key;
    }
  }

  // ---------------------------------------------------------------------
  // Rebuilding (remap)
  // ---------------------------------------------------------------------

  /** Replaying places keeps the table invariant. */
  lemma {:induction false} ReplayValid<V>(acc: Map<V>, es: seq<Entry<V>>)
    requires Valid(acc)
    ensures Valid(Replay(acc, es))
    decreases |es|
  {
    if |es| > 0 {
      ValidAfterPlace(acc, es[0].key, es[0].val);
      ReplayValid(Place(acc, es[0].key, es[0].val), es[1..]);
    }
  }

  /** After replaying duplicate-free entries, a key reads as its replayed
      value if it was replayed, and as before otherwise. */
  lemma {:induction false} ReplayGet<V>(acc: Map<V>, es: seq<Entry<V>>, k: Key)
    requires WellFormed(acc) && UniqueKeys(es)
    ensures Get(Replay(acc, es), k) == if HasKey(es, k) then Lookup(es, k) else Get(acc, k)
    decreases |es|
  {
    if |es| > 0 {
      var acc', tail := Place(acc, es[0].key, es[0].val), es[1..];
      assert Replay(acc, es) == Replay(acc', tail);
      UniqueTail(es);
      ReplayGet(acc', tail, k);
      GetAfterPlace(acc, es[0].key, es[0].val, k);
      LookupCons(es, k);
    }
  }

  /** The tail of a duplicate-free sequence is duplicate-free. */
  lemma UniqueTail<V>(es: seq<Entry<V>>)
    requires |es| > 0 && UniqueKeys(es)
    ensures UniqueKeys(es[1..])
  {
    var tail := es[1..];
    forall i, j | 0 <= i < j < |tail|
      ensures tail[i].key != tail[j].key
    {
      assert tail[i] == es[i + 1] && tail[j] == es[j + 1];
    }
  }

  /** In a duplicate-free sequence, the head's key is found at the head and
      nowhere in the tail; any other key is looked up in the tail. */
  lemma LookupCons<V>(es: seq<Entry<V>>, k: Key)
    requires |es| > 0 && UniqueKeys(es)
    ensures es[0].key == k ==> !HasKey(es[1..], k) && Lookup(es, k) == Some(es[0].val)
    ensures es[0].key != k ==> (HasKey(es, k) <==> HasKey(es[1..], k)) && Lookup(es, k) == Lookup(es[1..], k)
  {
    var tail := es[1..];
    if es[0].key != k {
      HasKeyTail(es, k);
      assert es == [es[0]] + tail;
      LookupAppend([es[0]], tail, k);
    } else {
      assert FindIndex(es, k) == Some(0);
      forall i | 0 <= i < |tail|
        ensures tail[i].key != k
      {
        assert tail[i] == es[i + 1];
      }
    }
  }

  /** Replaying duplicate-free entries whose keys are all new adds one node each. */
  lemma {:induction false} ReplayCount<V>(acc: Map<V>, es: seq<Entry<V>>)
    requires WellFormed(acc) && UniqueKeys(es)
    requires forall i :: 0 <= i < |es| ==> Get(acc, es[i].key).None?
    ensures Replay(acc, es).count == acc.count + |es|
    decreases |es|
  {
    if |es| > 0 {
      var acc' := Place(acc, es[0].key, es[0].val);
      forall i | 0 <= i < |es[1..]|
        ensures Get(acc', es[1..][i].key).None?
      {
        GetAfterPlace(acc, es[0].key, es[0].val, es[1..][i].key);
        assert es[1..][i] == es[i + 1];
      }
      ReplayCount(acc', es[1..]);
    }
  }

  /** A fresh array satisfies the table invariant. */
  lemma EmptyValid<V>(capacity: nat)
    requires capacity > 0
    ensures Valid(Empty<V>(capacity))
  {
    EmptyEntries<V>(capacity);
  }

  /** remap keeps the invariant and the count, puts every entry in bucket
      hash(key) % capacity of the new array, and keeps the key-to-value
      mapping: the same pairs are stored before and after. */
  lemma RemapPreserves<V>(m: Map<V>, capacity: nat)
    requires Valid(m) && capacity > 0
    ensures Valid(Remap(m, capacity))
    ensures Remap(m, capacity).capacity == capacity
    ensures Remap(m, capacity).count == m.count
    ensures forall k :: Get(Remap(m, capacity), k) == Get(m, k)
    ensures forall e :: e in Entries(Remap(m, capacity).buckets) <==> e in Entries(m.buckets)
  {
    var es := Entries(m.buckets);
    var r := Remap(m, capacity);
    EmptyValid<V>(capacity);
    EntriesUnique(m);
    ReplayValid(Empty<V>(capacity), es);
    ReplayCount(Empty<V>(capacity), es);
    forall k
      ensures Get(r, k) == Get(m, k)
    {
      ReplayGet(Empty<V>(capacity), es, k);
      GetMatchesEntries(m, k);
    }
    forall e
      ensures e in Entries(r.buckets) <==> e in es
    {
      GetMeansStored(r, e.key, e.val);
      GetMeansStored(m, e.key, e.val);
    }
  }

  // ---------------------------------------------------------------------
  // bcmap_put
  // ---------------------------------------------------------------------

  /** The growth check changes neither the invariant, the count nor the mapping. */
  lemma GrowPreserves<V>(m: Map<V>)
    requires Valid(m)
    ensures Valid(Grow(m)) && Grow(m).count == m.count
    ensures forall k :: Get(Grow(m), k) == Get(m, k)
  {
    if NeedsGrow(m) {
      RemapPreserves(m, m.capacity * GrowthFactor);
    }
  }

  /** put keeps the table invariant. */
  lemma PutValid<V>(m: Map<V>, k: Key, v: V)
    requires Valid(m) && GrowthFits(m)
    ensures Valid(Put(m, k, v))
  {
    GrowPreserves(m);
    ValidAfterPlace(Grow(m), k, v);
  }

  /** After put(k, v), get(k) returns v and every other key reads as before,
      whether or not the table grew. */
  lemma PutGet<V>(m: Map<V>, k: Key, v: V, k': Key)
    requires Valid(m) && GrowthFits(m)
    ensures Get(Put(m, k, v), k') == if k' == k then Some(v) else Get(m, k')
  {
    GrowPreserves(m);
    GetAfterPlace(Grow(m), k, v, k');
  }

  /** put counts a new key once and an existing key not at all. */
  lemma PutCount<V>(m: Map<V>, k: Key, v: V)
    requires Valid(m) && GrowthFits(m)
    ensures Len(Put(m, k, v)) == if Get(m, k).None? then Len(m) + 1 else Len(m)
  {
    GrowPreserves(m);
  }

  /** put of a new key appends (k, v) at the tail of bucket hash(k) % capacity
      of the (possibly grown) table, counts it, and leaves every other
      bucket as the growth check left it. */
  lemma PutNewKey<V>(m: Map<V>, k: Key, v: V)
    requires Valid(m) && GrowthFits(m) && Get(m, k).None?
    ensures var g, r := Grow(m), Put(m, k, v);
      && var i := Index(k, g.capacity);
      && r.capacity == g.capacity
      && r.buckets == g.buckets[i := g.buckets[i] + [Entry(k, v)]]
      && r.count == m.count + 1
  {
    GrowPreserves(m);
    var g, r := Grow(m), Put(m, k, v);
    var i := Index(k, g.capacity);
    assert r.buckets == g.buckets[i := r.buckets[i]];
  }

  /** put of a present key on a table below the load factor overwrites that
      entry's value where it stands: same capacity and count, every other
      bucket untouched, and the key's chain keeps its keys in order. */
  lemma PutExistingKey<V>(m: Map<V>, k: Key, v: V)
    requires Valid(m) && Get(m, k).Some? && !NeedsGrow(m)
    ensures var r, i := Put(m, k, v), Index(k, m.capacity);
      && r.capacity == m.capacity && r.count == m.count
      && (forall b :: 0 <= b < m.capacity && b != i ==> r.buckets[b] == m.buckets[b])
      && |r.buckets[i]| == |m.buckets[i]|
      && forall j :: 0 <= j < |m.buckets[i]| ==>
           r.buckets[i][j] == if m.buckets[i][j].key == k then Entry(k, v) else m.buckets[i][j]
  {
    var i := Index(k, m.capacity);
    var j := FindIndex(m.buckets[i], k).value;
    assert forall q :: 0 <= q < |m.buckets[i]| && q != j ==> m.buckets[i][q].key != k;
  }

  /** put of a present key at any load: the growth check may first rebuild
      the table, and the value is then overwritten where the key stands in
      the rebuilt chain. The count does not change, every other bucket is as
      the growth left it, and the chain keeps its keys in order. */
  lemma PutExistingKeyGrown<V>(m: Map<V>, k: Key, v: V)
    requires Valid(m) && GrowthFits(m) && Get(m, k).Some?
    ensures var g, r := Grow(m), Put(m, k, v);
      && var i := Index(k, g.capacity);
      && r.capacity == g.capacity && r.count == m.count
      && (forall b :: 0 <= b < g.capacity && b != i ==> r.buckets[b] == g.buckets[b])
      && |r.buckets[i]| == |g.buckets[i]|
      && forall j :: 0 <= j < |g.buckets[i]| ==>
           r.buckets[i][j] == if g.buckets[i][j].key == k then Entry(k, v) else g.buckets[i][j]
  {
    GrowPreserves(m);
    var g := Grow(m);
    var i := Index(k, g.capacity);
    assert Get(g, k).Some?;
    var j := FindIndex(g.buckets[i], k).value;
    assert forall q :: 0 <= q < |g.buckets[i]| && q != j ==> g.buckets[i][q].key != k;
  }

  // ---------------------------------------------------------------------
  // Growth
  // ---------------------------------------------------------------------

  /** The capacities a table can have: 11 * 3^j. */
  ghost predicate GrownCapacity(c: nat)
  {
    c == InitialCapacity || (c > InitialCapacity && c % GrowthFactor == 0 && GrownCapacity(c / GrowthFactor))
  }

  /** One entry fewer than the count stays below the load factor. */
  ghost predicate LoadBounded<V>(m: Map<V>)
  {
    m.count == 0 || (m.count - 1) * LoadDen < m.capacity * LoadNum
  }

  /** What holds of every table built by bcmap_new and a run of bcmap_put. */
  ghost predicate Reachable<V>(m: Map<V>)
  {
    Valid(m) && LoadBounded(m) && GrownCapacity(m.capacity)
  }

  /** A new table is empty, has capacity 11 and satisfies the invariants. */
  lemma NewReachable<V>()
    ensures Reachable(New<V>())
    ensures Len(New<V>()) == 0 && New<V>().capacity == InitialCapacity
  {
  }

  /** When put places its key, after the growth check, the count is below
      the load factor of the capacity in use. */
  lemma PlacedBelowLoad<V>(m: Map<V>)
    requires Valid(m) && LoadBounded(m)
    ensures Grow(m).count * LoadDen < Grow(m).capacity * LoadNum
  {
    GrowPreserves(m);
  }

  /** put keeps every invariant of a reachable table: capacity 11 * 3^j that
      never shrinks, and (count - 1) / capacity below the load factor. */
  lemma PutReachable<V>(m: Map<V>, k: Key, v: V)
    requires Reachable(m) && GrowthFits(m)
    ensures Reachable(Put(m, k, v))
    ensures Put(m, k, v).capacity >= m.capacity
  {
    PutValid(m, k, v);
    PutCount(m, k, v);
    PlacedBelowLoad(m);
    var c := m.capacity * GrowthFactor;
    assert NeedsGrow(m) ==> c / GrowthFactor == m.capacity;
  }

  /** The load factor itself can be exceeded: the eighth key put into the
      initial 11 buckets does not grow the table, leaving 8 / 11 > 0.7. */
  lemma LoadFactorExceeded<V>(m: Map<V>, k: Key, v: V)
    requires Reachable(m) && m.capacity == InitialCapacity && Len(m) == 7 && Get(m, k).None?
    ensures GrowthFits(m)
    ensures var r := Put(m, k, v); Reachable(r) && r.capacity == 11 && Len(r) == 8
    ensures var r := Put(m, k, v); r.count * LoadDen > r.capacity * LoadNum
  {
    PutCount(m, k, v);
    PutReachable(m, k, v);
  }

  /** A bound on the number of entries under which no capacity computed by
      growth overflows `size_t`. */
  const EntryBound: nat := 0x1000_0000_0000_0000

  /** A reachable table with fewer than EntryBound entries can grow without overflow. */
  lemma GrowthFitsBelowBound<V>(m: Map<V>)
    requires Reachable(m) && m.count < EntryBound
    ensures GrowthFits(m)
  {
  }

  /** A run of puts, one per pair of `es`, in order. */
  function PutAll<V>(m: Map<V>, es: seq<Entry<V>>): (r: Map<V>)
    requires Reachable(m) && m.count + |es| < EntryBound
    ensures Reachable(r) && r.count <= m.count + |es|
    decreases |es|
  {
    if |es| == 0 then m
    else
      var prev := PutAll(m, es[..|es| - 1]);
      GrowthFitsBelowBound(prev);
      PutReachable(prev, es[|es| - 1].key, es[|es| - 1].val);
      PutCount(prev, es[|es| - 1].key, es[|es| - 1].val);
      Put(prev, es[|es| - 1].key, es[|es| - 1].val)
  }

  /** Growth is invisible to readers: after any run of puts, however many
      times it grew the table, every key put reads as the value it was last
      given, and every other key reads as before. */
  lemma PutAllGet<V>(m: Map<V>, es: seq<Entry<V>>, k: Key)
    requires Reachable(m) && m.count + |es| < EntryBound
    ensures forall i :: 0 <= i < |es| && es[i].key == k && (forall j :: i < j < |es| ==> es[j].key != k) ==>
      Get(PutAll(m, es), k) == Some(es[i].val)
    ensures !HasKey(es, k) ==> Get(PutAll(m, es), k) == Get(m, k)
  {
    forall i | 0 <= i < |es| && es[i].key == k && (forall j :: i < j < |es| ==> es[j].key != k)
      ensures Get(PutAll(m, es), k) == Some(es[i].val)
    {
      PutAllGetLast(m, es, k, i);
    }
    if !HasKey(es, k) {
      PutAllGetUntouched(m, es, k);
    }
  }

  /** The last put of `k` decides what it reads. */
  lemma {:induction false} PutAllGetLast<V>(m: Map<V>, es: seq<Entry<V>>, k: Key, i: nat)
    requires Reachable(m) && m.count + |es| < EntryBound
    requires i < |es| && es[i].key == k && forall j :: i < j < |es| ==> es[j].key != k
    ensures Get(PutAll(m, es), k) == Some(es[i].val)
    decreases |es|
  {
    var init, last := es[..|es| - 1], es[|es| - 1];
    var prev := PutAll(m, init);
    assert PutAll(m, es) == Put(prev, last.key, last.val);
    GrowthFitsBelowBound(prev);
    PutGet(prev, last.key, last.val, k);
    if i < |es| - 1 {
      assert last.key != k;
      assert init[i] == es[i];
      forall j | i < j < |init|
        ensures init[j].key != k
      {
        assert init[j] == es[j];
      }
      PutAllGetLast(m, init, k, i);
    }
  }

  /** A key never put reads as before. */
  lemma {:induction false} PutAllGetUntouched<V>(m: Map<V>, es: seq<Entry<V>>, k: Key)
    requires Reachable(m) && m.count + |es| < EntryBound && !HasKey(es, k)
    ensures Get(PutAll(m, es), k) == Get(m, k)
    decreases |es|
  {
    if |es| > 0 {
      var init, last := es[..|es| - 1], es[|es| - 1];
      var prev := PutAll(m, init);
      GrowthFitsBelowBound(prev);
      PutGet(prev, last.key, last.val, k);
      assert !HasKey(init, k);
      PutAllGetUntouched(m, init, k);
    }
  }

  /** The distinct keys of `es`. */
  ghost function KeySet<V>(es: seq<Entry<V>>): set<Key>
  {
    set i | 0 <= i < |es| :: es[i].key
  }

  /** The last position at which `k` occurs in `es`. */
  lemma {:induction false} LastOccurrence<V>(es: seq<Entry<V>>, k: Key) returns (i: nat)
    requires HasKey(es, k)
    ensures i < |es| && es[i].key == k && forall j :: i < j < |es| ==> es[j].key != k
    decreases |es|
  {
    var init := es[..|es| - 1];
    if es[|es| - 1].key == k {
      i := |es| - 1;
    } else {
      assert HasKey(init, k) by {
        var n :| 0 <= n < |es| && es[n].key == k;
        assert init[n] == es[n];
      }
      i := LastOccurrence(init, k);
      assert init[i] == es[i];
      forall j | i < j < |es|
        ensures es[j].key != k
      {
        if j < |es| - 1 {
          assert init[j] == es[j];
        }
      }
    }
  }

  /** A new table after a run of puts holds exactly the keys put. */
  lemma PutAllNewHas<V>(es: seq<Entry<V>>, k: Key)
    requires |es| < EntryBound
    ensures Get(PutAll(New<V>(), es), k).Some? <==> HasKey(es, k)
  {
    NewReachable<V>();
    if HasKey(es, k) {
      var i := LastOccurrence(es, k);
      PutAllGetLast(New<V>(), es, k, i);
    } else {
      PutAllGetUntouched(New<V>(), es, k);
    }
  }

  /** Adding one entry adds its key to the distinct keys unless it already occurs. */
  lemma KeySetSnoc<V>(es: seq<Entry<V>>)
    requires |es| > 0
    ensures var init, k := es[..|es| - 1], es[|es| - 1].key;
      |KeySet(es)| == |KeySet(init)| + if HasKey(init, k) then 0 else 1
  {
    var init, k := es[..|es| - 1], es[|es| - 1].key;
    assert KeySet(es) == KeySet(init) + {k} by {
      forall i | 0 <= i < |init|
        ensures init[i] == es[i]
      {
      }
    }
    if HasKey(init, k) {
      var n :| 0 <= n < |init| && init[n].key == k;
      assert k in KeySet(init);
    } else {
      assert k !in KeySet(init);
    }
  }

  /** The last put of a run into a new table adds a node exactly when its key is new to the run. */
  lemma PutAllLenStep<V>(es: seq<Entry<V>>)
    requires 0 < |es| < EntryBound
    ensures var init, k := es[..|es| - 1], es[|es| - 1].key;
      Len(PutAll(New<V>(), es)) == Len(PutAll(New<V>(), init)) + if HasKey(init, k) then 0 else 1
  {
    var init, last := es[..|es| - 1], es[|es| - 1];
    var prev := PutAll(New<V>(), init);
    assert PutAll(New<V>(), es) == Put(prev, last.key, last.val);
    GrowthFitsBelowBound(prev);
    PutCount(prev, last.key, last.val);
    PutAllNewHas(init, last.key);
  }

  /** The length of a new table after a run of puts is the number of
      distinct keys put: a repeated key replaces, it does not add. */
  lemma {:induction false} PutAllLen<V>(es: seq<Entry<V>>)
    requires |es| < EntryBound
    ensures Len(PutAll(New<V>(), es)) == |KeySet(es)|
    decreases |es|
  {
    if |es| == 0 {
      assert KeySet(es) == {};
    } else {
      PutAllLen(es[..|es| - 1]);
      PutAllLenStep(es);
      KeySetSnoc(es);
    }
  }

  // ---------------------------------------------------------------------
  // bcmap_rm, bcmap_for, bcmap_del, bcmap_len
  // ---------------------------------------------------------------------

  /** rm reports found exactly when a pair with that key is stored, and then
      frees that stored key and value (each once, when its callback is given). */
  lemma RmFindsStored<V>(m: Map<V>, k: Key, keyfree: bool, valfree: bool)
    requires Valid(m)
    ensures Rm(m, k, keyfree, valfree).found <==> HasKey(Entries(m.buckets), k)
    ensures forall v :: Entry(k, v) in Entries(m.buckets) ==>
      Rm(m, k, keyfree, valfree).freed ==
        FreeCalls(Entry(k, v), keyfree, valfree)
  {
    GetMatchesEntries(m, k);
    forall v | Entry(k, v) in Entries(m.buckets)
      ensures Get(m, k) == Some(v)
    {
      GetMeansStored(m, k, v);
    }
  }

  lemma {:induction false} StateAfterTail<V, S>(es: seq<Entry<V>>, f: (Key, V, S) -> (bool, S), s: S, n: nat)
    requires 0 < |es| && n < |es|
    ensures StateAfter(es[1..], f, f(es[0].key, es[0].val, s).1, n) == StateAfter(es, f, s, n + 1)
    decreases n
  {
    if n > 0 {
      StateAfterTail(es, f, s, n - 1);
      assert es[1..][n - 1] == es[n];
    }
  }

  /** The traversal calls back on entries in order and stops right after the
      first callback that returns 0: it reports completion exactly when every
      callback asked to go on, and otherwise has run exactly up to the first
      refusal. */
  lemma {:induction false} WalkStopsAtFirstRefusal<V, S>(es: seq<Entry<V>>, f: (Key, V, S) -> (bool, S), s: S)
    ensures var r := Walk(es, f, s);
      && r.state == StateAfter(es, f, s, r.visited)
      && (r.completed ==> r.visited == |es| && forall i :: 0 <= i < |es| ==> Continues(es, f, s, i))
      && (!r.completed ==>
            && 1 <= r.visited <= |es|
            && (forall i :: 0 <= i < r.visited - 1 ==> Continues(es, f, s, i))
            && !Continues(es, f, s, r.visited - 1))
    decreases |es|
  {
    if |es| > 0 {
      var (go, s') := f(es[0].key, es[0].val, s);
      if go {
        WalkStopsAtFirstRefusal(es[1..], f, s');
        var r := Walk(es[1..], f, s');
        forall i | 1 <= i < |es|
          ensures Continues(es, f, s, i) == Continues(es[1..], f, s', i - 1)
        {
          StateAfterTail(es, f, s, i - 1);
          assert es[1..][i - 1] == es[i];
        }
        StateAfterTail(es, f, s, r.visited);
      }
    }
  }

  /** bcmap_for on a valid table: if it returns 1 it has called back exactly
      len times, on every entry in bucket-then-chain order; if it returns 0
      it stopped at the first callback that returned 0. */
  lemma ForVisits<V, S>(m: Map<V>, f: (Key, V, S) -> (bool, S), s: S)
    requires Valid(m)
    ensures var r, es := For(m, f, s), Entries(m.buckets);
      && r.state == StateAfter(es, f, s, r.visited)
      && (r.completed ==> r.visited == Len(m) && forall i :: 0 <= i < Len(m) ==> Continues(es, f, s, i))
      && (!r.completed ==>
            && 1 <= r.visited <= Len(m)
            && (forall i :: 0 <= i < r.visited - 1 ==> Continues(es, f, s, i))
            && !Continues(es, f, s, r.visited - 1))
  {
    WalkStopsAtFirstRefusal(Entries(m.buckets), f, s);
  }

  /** The calls fired over a concatenation are those of the first part, then the second. */
  lemma {:induction false} DelCallsConcat<V>(a: seq<Entry<V>>, b: seq<Entry<V>>, keyfree: bool, valfree: bool)
    ensures DelCalls(a + b, keyfree, valfree) == DelCalls(a, keyfree, valfree) + DelCalls(b, keyfree, valfree)
    decreases |a|
  {
    if |a| == 0 {
      assert a + b == b;
    } else {
      assert (a + b)[0] == a[0];
      assert (a + b)[1..] == a[1..] + b;
      DelCallsConcat(a[1..], b, keyfree, valfree);
    }
  }

  /** Entry i's callbacks come right after those of the entries before it. */
  lemma DelCallsAt<V>(es: seq<Entry<V>>, i: nat, keyfree: bool, valfree: bool)
    requires i < |es|
    ensures var r, n, f := DelCalls(es, keyfree, valfree), |DelCalls(es[..i], keyfree, valfree)|, FreeCalls(es[i], keyfree, valfree);
      n + |f| <= |r| && r[n .. n + |f|] == f
  {
    var pre, post := es[..i], es[i..];
    assert es == pre + post;
    DelCallsConcat(pre, post, keyfree, valfree);
    assert post[0] == es[i];
    var p, f, q := DelCalls(pre, keyfree, valfree), FreeCalls(es[i], keyfree, valfree), DelCalls(post[1..], keyfree, valfree);
    assert DelCalls(post, keyfree, valfree) == f + q;
    assert (p + (f + q))[|p|..|p| + |f|] == f;
  }

  /** bcmap_del on a valid table fires each given callback exactly once per
      node, node after node in bucket-then-chain order. */
  lemma DelFreesEachOnce<V>(m: Map<V>, keyfree: bool, valfree: bool)
    requires Valid(m)
    ensures var w, r, es := Width(keyfree, valfree), Del(m, keyfree, valfree), Entries(m.buckets);
      && |r| == w * Len(m)
      && forall i :: 0 <= i < Len(m) ==> r[w * i .. w * i + w] == FreeCalls(es[i], keyfree, valfree)
  {
    var es, w := Entries(m.buckets), Width(keyfree, valfree);
    forall i | 0 <= i < |es|
      ensures w * i + w <= |DelCalls(es, keyfree, valfree)|
      ensures DelCalls(es, keyfree, valfree)[w * i .. w * i + w] == FreeCalls(es[i], keyfree, valfree)
    {
      DelCallsSlot(es, i, keyfree, valfree);
    }
  }

  /** Entry i's callbacks sit at positions w * i up to w * i + w, w being
      the number of callbacks per entry. */
  lemma DelCallsSlot<V>(es: seq<Entry<V>>, i: nat, keyfree: bool, valfree: bool)
    requires i < |es|
    ensures var w, r := Width(keyfree, valfree), DelCalls(es, keyfree, valfree);
      w * i + w <= |r| && r[w * i .. w * i + w] == FreeCalls(es[i], keyfree, valfree)
  {
    DelCallsAt(es, i, keyfree, valfree);
    var w, r, f := Width(keyfree, valfree), DelCalls(es, keyfree, valfree), FreeCalls(es[i], keyfree, valfree);
    var n := |DelCalls(es[..i], keyfree, valfree)|;
    assert |es[..i]| == i;
    assert n == w * i && |f| == w;
    assert n + |f| <= |r| && r[n .. n + |f|] == f;
  }
}
