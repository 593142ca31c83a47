/** The separate-chaining hash table of bcmap.c, as an immutable value:
    each operation returns the table it leaves behind together with what it
    reports to the caller. Keys are C strings compared with strcmp; values
    are opaque references of type V. */
module BcMap {
  import opened Wrappers
  import opened CString
  import opened Djb2
  import opened Chain

  /** BCMAP_INITIAL_CAPACITY. */
  const InitialCapacity: nat := 11
  /** BCMAP_LOAD_FACTOR, 0.7, as the fraction LoadNum / LoadDen. */
  const LoadNum: nat := 7
  const LoadDen: nat := 10
  /** BCMAP_GROWTH_FACTOR. */
  const GrowthFactor: nat := 3

  type Bucket<V> = seq<Entry<V>>

  /** `struct map`: the bucket array (one chain per bucket) and the entry
      count. The comparator is fixed to the string comparator. */
  datatype Map<V> = Map(capacity: nat, count: nat, buckets: seq<Bucket<V>>)

  /** The shape every operation relies on: a non-empty bucket array of
      `capacity` chains. */
  predicate WellFormed<V>(m: Map<V>)
  {
    m.capacity > 0 && |m.buckets| == m.capacity
  }

  /** The bucket a key lives in: `hash(key) % map->capacity`. */
  function Index(k: Key, capacity: nat): (i: nat)
    requires capacity > 0
    ensures i < capacity
  {
    Hash(k) % capacity
  }

  /** All entries, bucket by bucket in ascending index and each chain from
      its head: the order in which bcmap_for, bcmap_del and remap visit them. */
  function Entries<V>(bs: seq<Bucket<V>>): seq<Entry<V>>
  {
    if |bs| == 0 then [] else Entries(bs[..|bs| - 1]) + bs[|bs| - 1]
  }

  /** Every entry sits in the bucket its key hashes to. */
  ghost predicate Placed<V>(bs: seq<Bucket<V>>, capacity: nat)
  {
    capacity > 0 &&
    forall i, j :: 0 <= i < |bs| && 0 <= j < |bs[i]| ==> Index(bs[i][j].key, capacity) == i
  }

  /** The table invariant: entries in their hash buckets, at most one entry
      per key, and `count` equal to the number of nodes. */
  ghost predicate Valid<V>(m: Map<V>)
  {
    && WellFormed(m)
    && Placed(m.buckets, m.capacity)
    && (forall i :: 0 <= i < |m.buckets| ==> UniqueKeys(m.buckets[i]))
    && m.count == |Entries(m.buckets)|
  }

  /** `count / capacity >= 0.7`, in integers. */
  predicate NeedsGrow<V>(m: Map<V>)
  {
    m.count * LoadDen >= m.capacity * LoadNum
  }

  /** A growth the table makes keeps its capacity within `size_t`. */
  predicate GrowthFits<V>(m: Map<V>)
  {
    NeedsGrow(m) ==> m.capacity * GrowthFactor < SizeModulus
  }

  /** `capacity` zero-filled chain heads, as `calloc` returns them. */
  function EmptyBuckets<V>(capacity: nat): (bs: seq<Bucket<V>>)
    ensures |bs| == capacity
    ensures forall i :: 0 <= i < capacity ==> bs[i] == []
  {
    seq(capacity, _ => [])
  }

  /** An empty table of the given capacity. */
  function Empty<V>(capacity: nat): (m: Map<V>)
    requires capacity > 0
    ensures WellFormed(m) && m.capacity == capacity && m.count == 0
    ensures forall k :: Get(m, k).None?
  {
    Map(capacity, 0, EmptyBuckets(capacity))
  }

  /** bcmap_new. */
  function New<V>(): (m: Map<V>)
    ensures Valid(m)
    ensures m.capacity == InitialCapacity && m.count == 0
    ensures forall k :: Get(m, k).None?
  {
    EmptyEntries<V>(InitialCapacity);
    Empty(InitialCapacity)
  }

  /** bcmap_get: the value of the first equal key in the key's bucket, or
      None where the C code returns NULL. */
  function Get<V>(m: Map<V>, k: Key): (r: Option<V>)
    requires WellFormed(m)
    ensures r.None? <==> !HasKey(m.buckets[Index(k, m.capacity)], k)
    ensures var chain := m.buckets[Index(k, m.capacity)];
      r.Some? ==> exists j :: 0 <= j < |chain| && chain[j] == Entry(k, r.value) && forall i :: 0 <= i < j ==> chain[i].key != k
  {
    Lookup(m.buckets[Index(k, m.capacity)], k)
  }

  /** The second half of bcmap_put (from computing the index on): walk the
      key's chain; overwrite the value of an equal key in place, or append a
      new node at the tail and count it. */
  function Place<V>(m: Map<V>, k: Key, v: V): (r: Map<V>)
    requires WellFormed(m)
    ensures WellFormed(r) && r.capacity == m.capacity
    ensures forall b :: 0 <= b < |m.buckets| && b != Index(k, m.capacity) ==> r.buckets[b] == m.buckets[b]
    ensures Get(m, k).None? ==>
      && r.buckets[Index(k, m.capacity)] == m.buckets[Index(k, m.capacity)] + [Entry(k, v)]
      && r.count == m.count + 1
    ensures Get(m, k).Some? ==>
      && var chain := m.buckets[Index(k, m.capacity)];
      && var j := FindIndex(chain, k).value;
      && r.buckets[Index(k, m.capacity)] == chain[j := Entry(chain[j].key, v)]
      && r.count == m.count
  {
    var i := Index(k, m.capacity);
    var chain := m.buckets[i];
    match FindIndex(chain, k)
    case Some(j) => m.(buckets := m.buckets[i := chain[j := Entry(chain[j].key, v)]])
    case None => m.(buckets := m.buckets[i := chain + [Entry(k, v)]], count := m.count + 1)
  }

  /** Places the entries of `es` into `acc` one after another. */
  function Replay<V>(acc: Map<V>, es: seq<Entry<V>>): (r: Map<V>)
    requires WellFormed(acc)
    ensures WellFormed(r) && r.capacity == acc.capacity
    ensures acc.count <= r.count <= acc.count + |es|
    decreases |es|
  {
    if |es| == 0 then acc else Replay(Place(acc, es[0].key, es[0].val), es[1..])
  }

  /** remap: a fresh array of `capacity` buckets, refilled by replaying every
      old entry in bucket-then-chain order. (The C code replays bcmap_put,
      whose growth check never fires there: Loops.RemapLoop and
      Loops.GrowthRemapNeverNests show the two agree.) */
  function Remap<V>(m: Map<V>, capacity: nat): (r: Map<V>)
    requires capacity > 0
    ensures WellFormed(r) && r.capacity == capacity
    ensures r.count <= |Entries(m.buckets)|
  {
    Replay(Empty(capacity), Entries(m.buckets))
  }

  /** The growth check at the top of bcmap_put. */
  function Grow<V>(m: Map<V>): (r: Map<V>)
    requires WellFormed(m)
    ensures WellFormed(r)
    ensures r.capacity == if NeedsGrow(m) then m.capacity * GrowthFactor else m.capacity
  {
    if NeedsGrow(m) then Remap(m, m.capacity * GrowthFactor) else m
  }

  /** bcmap_put: grow if the load factor has been reached, then place the key
      using the (possibly new) capacity. */
  function Put<V>(m: Map<V>, k: Key, v: V): (r: Map<V>)
    requires WellFormed(m) && GrowthFits(m)
    ensures WellFormed(r)
    ensures m.capacity < SizeModulus ==> r.capacity < SizeModulus
    ensures r.capacity >= m.capacity
    ensures r.capacity == if NeedsGrow(m) then m.capacity * GrowthFactor else m.capacity
  {
    Place(Grow(m), k, v)
  }

  /** bcmap_len. */
  function Len<V>(m: Map<V>): (r: nat)
    ensures Valid(m) ==> r == |Entries(m.buckets)|
  {
    m.count
  }

  /** One call of a free callback, on a stored key or a stored value. */
  datatype Freed<V> = FreedKey(key: Key) | FreedVal(val: V)

  /** The callbacks fired for one entry, key first, each only when given
      (non-NULL). */
  function FreeCalls<V>(e: Entry<V>, keyfree: bool, valfree: bool): (r: seq<Freed<V>>)
    ensures |r| == Width(keyfree, valfree)
  {
    (if keyfree then [FreedKey(e.key)] else []) + (if valfree then [FreedVal(e.val)] else [])
  }

  /** How many callbacks fire per entry. */
  function Width(keyfree: bool, valfree: bool): nat
  {
    (if keyfree then 1 else 0) + (if valfree then 1 else 0)
  }

  /** What bcmap_rm reports: whether the key was found, and the callbacks it
      fired. It changes neither the buckets nor the count, so it returns no
      table: the caller keeps the one it had. */
  datatype Removal<V> = Removal(found: bool, freed: seq<Freed<V>>)

  /** bcmap_rm. */
  function Rm<V>(m: Map<V>, k: Key, keyfree: bool, valfree: bool): (r: Removal<V>)
    requires WellFormed(m)
    ensures r.found <==> Get(m, k).Some?
    ensures r.found ==> r.freed == FreeCalls(Entry(k, Get(m, k).value), keyfree, valfree)
    ensures !r.found ==> r.freed == []
  {
    var chain := m.buckets[Index(k, m.capacity)];
    match FindIndex(chain, k)
    case Some(j) => Removal(true, FreeCalls(chain[j], keyfree, valfree))
    case None => Removal(false, [])
  }

  /** The callbacks bcmap_del fires over `es`, entry by entry. */
  function DelCalls<V>(es: seq<Entry<V>>, keyfree: bool, valfree: bool): (r: seq<Freed<V>>)
    ensures |r| == Width(keyfree, valfree) * |es|
    decreases |es|
  {
    if |es| == 0 then []
    else
      var w := Width(keyfree, valfree);
      assert w * |es| == w + w * (|es| - 1);
      FreeCalls(es[0], keyfree, valfree) + DelCalls(es[1..], keyfree, valfree)
  }

  /** bcmap_del: the callbacks fired while every node is freed. */
  function Del<V>(m: Map<V>, keyfree: bool, valfree: bool): (r: seq<Freed<V>>)
    ensures |r| == Width(keyfree, valfree) * |Entries(m.buckets)|
  {
    DelCalls(Entries(m.buckets), keyfree, valfree)
  }

  /** What bcmap_for reports: whether every entry was visited (return 1),
      how many callbacks ran, and the callback state left behind. */
  datatype Visit<S> = Visit(completed: bool, visited: nat, state: S)

  /** Calls `f` on each entry of `es` in order, threading the state, until a
      call returns false (0). */
  function Walk<V, S>(es: seq<Entry<V>>, f: (Key, V, S) -> (bool, S), s: S): (r: Visit<S>)
    ensures r.visited <= |es|
    ensures r.completed ==> r.visited == |es|
    ensures !r.completed ==> r.visited >= 1
    decreases |es|
  {
    if |es| == 0 then Visit(true, 0, s)
    else
      var (go, s') := f(es[0].key, es[0].val, s);
      if !go then Visit(false, 1, s')
      else
        var r := Walk(es[1..], f, s');
        Visit(r.completed, r.visited + 1, r.state)
  }

  /** bcmap_for. */
  function For<V, S>(m: Map<V>, f: (Key, V, S) -> (bool, S), s: S): (r: Visit<S>)
    ensures r.visited <= |Entries(m.buckets)|
  {
    Walk(Entries(m.buckets), f, s)
  }

  /** The state after the callback has run on the first n entries. */
  ghost function StateAfter<V, S>(es: seq<Entry<V>>, f: (Key, V, S) -> (bool, S), s: S, n: nat): S
    requires n <= |es|
  {
    if n == 0 then s else f(es[n - 1].key, es[n - 1].val, StateAfter(es, f, s, n - 1)).1
  }

  /** The callback, run on entry i after the ones before it, asks to go on. */
  ghost predicate Continues<V, S>(es: seq<Entry<V>>, f: (Key, V, S) -> (bool, S), s: S, i: nat)
    requires i < |es|
  {
    f(es[i].key, es[i].val, StateAfter(es, f, s, i)).0
  }

  /** Every bucket of a fresh array is empty, so it holds no entries. */
  lemma {:induction false} EmptyEntries<V>(capacity: nat)
    ensures Entries(EmptyBuckets<V>(capacity)) == []
    decreases capacity
  {
    if capacity > 0 {
      assert EmptyBuckets<V>(capacity)[..capacity - 1] == EmptyBuckets<V>(capacity - 1);
      EmptyEntries<V>(capacity - 1);
    }
  }
}
