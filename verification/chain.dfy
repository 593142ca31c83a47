/** One bucket's chain (bcmap.c, `struct node` lists): entries in
    tail-insertion order, searched from the head with the string comparator. */
module Chain {
  import opened Wrappers
  import opened CString

  /** `struct entry`: the key and the value reference stored together. */
  datatype Entry<V> = Entry(key: Key, val: V)

  /** No two entries of `es` carry equal keys. */
  ghost predicate UniqueKeys<V>(es: seq<Entry<V>>)
  {
    forall i, j :: 0 <= i < j < |es| ==> es[i].key != es[j].key
  }

  /** Some entry of `es` carries key `k`. */
  ghost predicate HasKey<V>(es: seq<Entry<V>>, k: Key)
  {
    exists i :: 0 <= i < |es| && es[i].key == k
  }

  /** The walk `while (node) { if (!cmp(key, node->entry->key)) ...; node = node->next; }`:
      the position of the first entry whose key compares equal to `k`. */
  function FindIndex<V>(es: seq<Entry<V>>, k: Key): (r: Option<nat>)
    ensures r.Some? ==> r.value < |es| && es[r.value].key == k
    ensures r.Some? ==> forall i :: 0 <= i < r.value ==> es[i].key != k
    ensures r.None? <==> !HasKey(es, k)
    decreases |es|
  {
    if |es| == 0 then None
    else if StrCmp(k, es[0].key) == 0 then Some(0)
    else
      match FindIndex(es[1..], k)
      case None =>
        assert forall i :: 1 <= i < |es| ==> es[i] == es[1..][i - 1];
        None
      case Some(j) => Some(j + 1)
  }

  /** The value stored with the first entry whose key equals `k`, if any. */
  function Lookup<V>(es: seq<Entry<V>>, k: Key): (r: Option<V>)
    ensures r.None? <==> !HasKey(es, k)
    ensures r.Some? ==> exists j :: 0 <= j < |es| && es[j] == Entry(k, r.value) && forall i :: 0 <= i < j ==> es[i].key != k
  {
    match FindIndex(es, k)
    case None => None
    case Some(j) => Some(es[j].val)
  }

  /** Looking a key up in a concatenation searches the first part, then the second. */
  lemma LookupAppend<V>(a: seq<Entry<V>>, b: seq<Entry<V>>, k: Key)
    ensures Lookup(a + b, k) == if HasKey(a, k) then Lookup(a, k) else Lookup(b, k)
  {
    FindIndexAppend(a, b, k);
    if HasKey(a, k) {
      var j := FindIndex(a, k).value;
      assert (a + b)[j] == a[j];
    } else if HasKey(b, k) {
      var j := FindIndex(b, k).value;
      assert (a + b)[j + |a|] == b[j];
    }
  }

  /** A position found in a later part of a sequence, moved past the `d` entries before it. */
  function Offset(o: Option<nat>, d: nat): Option<nat>
  {
    match o
    case None => None
    case Some(j) => Some(j + d)
  }

  lemma {:induction false} FindIndexAppend<V>(a: seq<Entry<V>>, b: seq<Entry<V>>, k: Key)
    ensures FindIndex(a + b, k) == if HasKey(a, k) then FindIndex(a, k) else Offset(FindIndex(b, k), |a|)
    decreases |a|
  {
    if |a| == 0 {
      assert a + b == b;
    } else if StrCmp(k, a[0].key) == 0 {
      assert (a + b)[0] == a[0];
    } else {
      var ab := a + b;
      assert ab[0] == a[0];
      assert ab[1..] == a[1..] + b;
      assert a[0].key != k;
      FindIndexAppend(a[1..], b, k);
      assert FindIndex(ab, k) == Offset(FindIndex(a[1..] + b, k), 1);
      assert FindIndex(a, k) == Offset(FindIndex(a[1..], k), 1);
      HasKeyTail(a, k);
    }
  }

  /** A key other than the head's occurs in a chain iff it occurs in the tail. */
  lemma HasKeyTail<V>(a: seq<Entry<V>>, k: Key)
    requires |a| > 0 && a[0].key != k
    ensures HasKey(a, k) <==> HasKey(a[1..], k)
  {
    if HasKey(a, k) {
      var i :| 0 <= i < |a| && a[i].key == k;
      assert a[1..][i - 1].key == k;
    }
    if HasKey(a[1..], k) {
      var i :| 0 <= i < |a[1..]| && a[1..][i].key == k;
      assert a[i + 1].key == k;
    }
  }

  /** Two duplicate-free chains with no key in common join into a duplicate-free chain. */
  lemma UniqueAppend<V>(a: seq<Entry<V>>, b: seq<Entry<V>>)
    requires UniqueKeys(a) && UniqueKeys(b)
    requires forall p, q :: 0 <= p < |a| && 0 <= q < |b| ==> a[p].key != b[q].key
    ensures UniqueKeys(a + b)
  {
    forall i, j | 0 <= i < j < |a + b|
      ensures (a + b)[i].key != (a + b)[j].key
    {
      if j < |a| {
      } else if i < |a| {
        assert (a + b)[j] == b[j - |a|];
      } else {
        assert (a + b)[i] == b[i - |a|] && (a + b)[j] == b[j - |a|];
      }
    }
  }

  /** The chain walk looks only at keys: chains with the same keys in the same
      order find a key at the same position. */
  lemma {:induction false} FindIndexKeysOnly<V>(a: seq<Entry<V>>, b: seq<Entry<V>>, k: Key)
    requires |a| == |b| && forall i :: 0 <= i < |a| ==> a[i].key == b[i].key
    ensures FindIndex(a, k) == FindIndex(b, k)
    decreases |a|
  {
    if |a| > 0 {
      FindIndexKeysOnly(a[1..], b[1..], k);
    }
  }

  /** In a chain without duplicate keys, a lookup finds exactly the stored pairs. */
  lemma LookupUnique<V>(es: seq<Entry<V>>, k: Key, v: V)
    requires UniqueKeys(es)
    ensures Lookup(es, k) == Some(v) <==> Entry(k, v) in es
  {
    if Entry(k, v) in es {
      var p :| 0 <= p < |es| && es[p] == Entry(k, v);
      var r := FindIndex(es, k).value;
      assert r == p;
    }
  }
}
