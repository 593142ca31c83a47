/** A worked run of the table with the string comparator and integer
    values: put "a" -> 1, put "a" -> 2, put "b" -> 3, then traverse, remove
    and tear down. */
module Scenario {
  import opened Wrappers
  import opened CString
  import opened Djb2
  import opened Chain
  import opened BcMap
  import opened Properties

  /** "a" and "b" as C strings. */
  const A: Key := [97]
  const B: Key := [98]

  /** djb2 puts "a" in bucket 9 and "b" in bucket 10 of the initial 11. */
  lemma ScenarioBuckets()
    ensures Hash(A) == 177670 && Index(A, InitialCapacity) == 9
    ensures Hash(B) == 177671 && Index(B, InitialCapacity) == 10
  {
    assert A[..0] == [] && B[..0] == [];
  }

  /** The tables after each put of the run. */
  function T1(): Map<int> { Put(New<int>(), A, 1) }
  function T2(): Map<int> { Put(T1(), A, 2) }
  function T3(): Map<int> { Put(T2(), B, 3) }

  lemma ScenarioFirstPut()
    ensures T1() == Map(11, 1, EmptyBuckets<int>(11)[9 := [Entry(A, 1)]])
  {
    ScenarioBuckets();
    var t0 := New<int>();
    assert t0.buckets == EmptyBuckets<int>(11);
    assert !NeedsGrow(t0) && Grow(t0) == t0;
    assert Get(t0, A).None?;
    assert t0.buckets[9] + [Entry(A, 1)] == [Entry(A, 1)];
  }

  lemma ScenarioOverwrite()
    ensures T2() == Map(11, 1, EmptyBuckets<int>(11)[9 := [Entry(A, 2)]])
  {
    ScenarioBuckets();
    ScenarioFirstPut();
    var t1 := T1();
    assert !NeedsGrow(t1) && Grow(t1) == t1;
    var chain := t1.buckets[9];
    assert chain == [Entry(A, 1)];
    assert FindIndex(chain, A) == Some(0);
    assert chain[0 := Entry(chain[0].key, 2)] == [Entry(A, 2)];
    assert T2() == Place(t1, A, 2);
  }

  lemma ScenarioSecondKey()
    ensures T3() == Map(11, 2, EmptyBuckets<int>(11)[9 := [Entry(A, 2)]][10 := [Entry(B, 3)]])
  {
    ScenarioBuckets();
    ScenarioOverwrite();
    var t2 := T2();
    assert !NeedsGrow(t2) && Grow(t2) == t2;
    assert Get(t2, B).None?;
    assert t2.buckets[10] + [Entry(B, 3)] == [Entry(B, 3)];
  }

  /** Reading back: put returns what was put, overwriting "a" leaves the
      length at 1, and a second key makes it 2. */
  lemma ScenarioReads()
    ensures Get(T1(), A) == Some(1) && Len(T1()) == 1
    ensures Get(T2(), A) == Some(2) && Len(T2()) == 1
    ensures Get(T3(), A) == Some(2) && Get(T3(), B) == Some(3) && Len(T3()) == 2
  {
    ScenarioBuckets();
    ScenarioFirstPut();
    ScenarioOverwrite();
    ScenarioSecondKey();
    assert FindIndex(T1().buckets[9], A) == Some(0);
    assert FindIndex(T2().buckets[9], A) == Some(0);
    assert FindIndex(T3().buckets[9], A) == Some(0);
    assert FindIndex(T3().buckets[10], B) == Some(0);
  }

  /** The bucket array the run ends with. */
  function FinalBuckets(): seq<Bucket<int>>
  {
    EmptyBuckets<int>(11)[9 := [Entry(A, 2)]][10 := [Entry(B, 3)]]
  }

  lemma FinalEntries()
    ensures Entries(FinalBuckets()) == [Entry(A, 2), Entry(B, 3)]
  {
    var bs := FinalBuckets();
    EmptyEntries<int>(9);
    assert bs[..9] == EmptyBuckets<int>(9);
    assert bs[..10] == bs[..9] + [[Entry(A, 2)]];
    EntriesSnoc(bs[..9], [Entry(A, 2)]);
    assert bs == bs[..10] + [[Entry(B, 3)]];
    EntriesSnoc(bs[..10], [Entry(B, 3)]);
  }

  /** A bcmap_for callback that always goes on and appends each pair it is
      handed to the state. */
  function Collect(k: Key, v: int, acc: seq<(Key, int)>): (bool, seq<(Key, int)>)
  {
    (true, acc + [(k, v)])
  }

  /** The final table holds ("a", 2) then ("b", 3) in bucket-then-chain order. */
  lemma T3Entries()
    ensures Entries(T3().buckets) == [Entry(A, 2), Entry(B, 3)]
  {
    ScenarioSecondKey();
    FinalEntries();
  }

  /** The collecting callback over ("a", 2), ("b", 3) goes on twice and
      gathers both pairs in order. */
  lemma CollectFinal()
    ensures Walk([Entry(A, 2), Entry(B, 3)], Collect, []) == Visit(true, 2, [(A, 2), (B, 3)])
  {
    var es, tail := [Entry(A, 2), Entry(B, 3)], [Entry(B, 3)];
    var none: seq<(Key, int)>, one, two := [], [(A, 2)], [(A, 2), (B, 3)];
    assert es[1..] == tail && tail[1..] == [];
    assert none + [(A, 2)] == one && one + [(B, 3)] == two;
    assert Walk(tail[1..], Collect, two) == Visit(true, 0, two);
    assert Walk(tail, Collect, one) == Visit(true, 1, two);
    assert Walk(es, Collect, none) == Visit(true, 2, two);
  }

  /** bcmap_for with a collecting callback returns 1 after two callbacks,
      handed ("a", 2) then ("b", 3): bucket 9 comes before bucket 10. */
  lemma ScenarioOrder()
    ensures For(T3(), Collect, []) == Visit(true, 2, [(A, 2), (B, 3)])
  {
    T3Entries();
    CollectFinal();
  }

  /** rm("a") reports found and frees the stored key and value once each;
      the table, and so its length 2, is unchanged. */
  lemma ScenarioRemove()
    ensures Rm(T3(), A, true, true) == Removal(true, [FreedKey(A), FreedVal(2)])
    ensures Len(T3()) == 2
  {
    ScenarioBuckets();
    ScenarioSecondKey();
    assert T3().buckets[9] == [Entry(A, 2)];
    assert FindIndex(T3().buckets[9], A) == Some(0);
  }

  lemma FinalFrees()
    ensures DelCalls([Entry(A, 2), Entry(B, 3)], true, true) == [FreedKey(A), FreedVal(2), FreedKey(B), FreedVal(3)]
  {
    assert [Entry(A, 2), Entry(B, 3)][1..] == [Entry(B, 3)];
    assert DelCalls([Entry(B, 3)], true, true) == [FreedKey(B), FreedVal(3)];
  }

  /** del frees both pairs, key before value, "a" before "b". */
  lemma ScenarioDelete()
    ensures Del(T3(), true, true) == [FreedKey(A), FreedVal(2), FreedKey(B), FreedVal(3)]
  {
    T3Entries();
    FinalFrees();
  }
}
