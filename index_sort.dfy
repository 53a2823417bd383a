/** java.util.Arrays.sort as the planner uses it: entries are built in index order and
  * sorted stably by an integer key, so the result is the list of indices ordered by
  * key and, among equal keys, by index. Sorting by that strict order gives one answer,
  * whatever stable algorithm the library runs; here it is insertion. */
module IndexSort {
  /** Index x sorts before index y. */
  predicate Before(keys: seq<int>, x: nat, y: nat)
    requires x < |keys| && y < |keys|
  {
    keys[x] < keys[y] || (keys[x] == keys[y] && x < y)
  }

  predicate InRange(order: seq<nat>, n: nat)
  {
    forall p :: 0 <= p < |order| ==> order[p] < n
  }

  predicate StrictlySorted(keys: seq<int>, order: seq<nat>)
    requires InRange(order, |keys|)
  {
    forall p, q :: 0 <= p < q < |order| ==> Before(keys, order[p], order[q])
  }

  /** x inserted into a sorted list of indices, after every index that sorts before it. */
  function Insert(keys: seq<int>, x: nat, order: seq<nat>): (r: seq<nat>)
    requires x < |keys| && InRange(order, |keys|)
    ensures |r| == |order| + 1 && InRange(r, |keys|)
    ensures forall y :: y in r <==> y == x || y in order
  {
    if order == [] then [x]
    else if Before(keys, x, order[0]) then [x] + order
    else [order[0]] + Insert(keys, x, order[1..])
  }

  lemma {:induction false} InsertSorted(keys: seq<int>, x: nat, order: seq<nat>)
    requires x < |keys| && InRange(order, |keys|) && StrictlySorted(keys, order) && x !in order
    ensures StrictlySorted(keys, Insert(keys, x, order))
  {
    if order != [] && !Before(keys, x, order[0]) {
      var rest := order[1..];
      assert x != order[0];
      InsertSorted(keys, x, rest);
      var r := Insert(keys, x, rest);
      forall q | 0 <= q < |r|
        ensures Before(keys, order[0], r[q])
      {
        assert r[q] in r;
        if r[q] != x {
          var p :| 0 <= p < |rest| && rest[p] == r[q];
          assert order[p + 1] == rest[p];
        }
      }
    }
  }

  /** The indices 0 .. n - 1 sorted by Before. */
  function SortIndices(keys: seq<int>, n: nat): (order: seq<nat>)
    requires n <= |keys|
    ensures |order| == n && InRange(order, |keys|)
    ensures forall y :: y in order <==> 0 <= y < n
  {
    if n == 0 then [] else Insert(keys, n - 1, SortIndices(keys, n - 1))
  }

  lemma {:induction false} SortIndicesSorted(keys: seq<int>, n: nat)
    requires n <= |keys|
    ensures StrictlySorted(keys, SortIndices(keys, n))
  {
    if n > 0 {
      SortIndicesSorted(keys, n - 1);
      InsertSorted(keys, n - 1, SortIndices(keys, n - 1));
    }
  }

  /** All the indices of keys, sorted. */
  function Sorted(keys: seq<int>): (order: seq<nat>)
    ensures |order| == |keys| && InRange(order, |keys|)
    ensures forall y :: y in order <==> 0 <= y < |keys|
  {
    SortIndices(keys, |keys|)
  }

  /** The sorted indices are in Before order, each at exactly one position (every index
    * occurs, by the contract of Sorted). */
  lemma SortedIsOrderedPermutation(keys: seq<int>)
    ensures StrictlySorted(keys, Sorted(keys))
    ensures forall p, q :: 0 <= p < |keys| && 0 <= q < |keys| && Sorted(keys)[p] == Sorted(keys)[q] ==> p == q
  {
    SortIndicesSorted(keys, |keys|);
  }

  /** With every key equal the order is the index order. */
  lemma {:induction false} SortEqualKeys(keys: seq<int>, n: nat)
    requires n <= |keys|
    requires forall x, y :: 0 <= x < |keys| && 0 <= y < |keys| ==> keys[x] == keys[y]
    ensures SortIndices(keys, n) == seq(n, i => i)
  {
    if n > 0 {
      SortEqualKeys(keys, n - 1);
      InsertLast(keys, n - 1, seq(n - 1, i => i));
      assert seq(n - 1, i => i) + [n - 1] == seq(n, i => i);
    }
  }

  /** Inserting an index larger than every listed one, among equal keys, appends it. */
  lemma {:induction false} InsertLast(keys: seq<int>, x: nat, order: seq<nat>)
    requires x < |keys| && InRange(order, |keys|)
    requires forall p :: 0 <= p < |order| ==> keys[order[p]] == keys[x] && order[p] < x
    ensures Insert(keys, x, order) == order + [x]
  {
    if order != [] {
      InsertLast(keys, x, order[1..]);
      assert [order[0]] + (order[1..] + [x]) == order + [x];
    }
  }
}
