/** The importance flags handed to the erasure-fill encoder for one block: which of its
  * bytes keep the ideal value (true) and which the encoder may overwrite (false).
  * Importance values are integer keys here; a block's key list is its data bytes'
  * keys followed by its error-correction bytes' keys. */
module QRImportance {
  import opened IndexSort
  import opened ErasureSystem

  /** A block's keys: dataLength entries from dataOffset, then ecLength entries from
    * ecOffset, of the per-byte importance list. */
  function BlockKeys(iv: seq<int>, dataOffset: nat, dataLength: nat, ecOffset: nat, ecLength: nat): (keys: seq<int>)
    requires dataOffset + dataLength <= |iv| && ecOffset + ecLength <= |iv|
    ensures |keys| == dataLength + ecLength
    ensures forall i :: 0 <= i < dataLength ==> keys[i] == iv[dataOffset + i]
    ensures forall i :: dataLength <= i < dataLength + ecLength ==> keys[i] == iv[ecOffset + i - dataLength]
  {
    iv[dataOffset..dataOffset + dataLength] + iv[ecOffset..ecOffset + ecLength]
  }

  function Negated(keys: seq<int>): (r: seq<int>)
    ensures |r| == |keys|
    ensures forall i :: 0 <= i < |keys| ==> r[i] + keys[i] == 0
  {
    seq(|keys|, i requires 0 <= i < |keys| => -keys[i])
  }

  /** The stable sort by descending importance: block positions, most important first,
    * ties in position order. */
  function DescendingOrder(keys: seq<int>): (order: seq<nat>)
    ensures |order| == |keys| && InRange(order, |keys|)
    ensures forall y :: y in order <==> 0 <= y < |keys|
  {
    Sorted(Negated(keys))
  }

  /** Position x comes before position y in the descending sort. */
  predicate MoreImportant(keys: seq<int>, x: nat, y: nat)
    requires x < |keys| && y < |keys|
  {
    keys[x] > keys[y] || (keys[x] == keys[y] && x < y)
  }

  lemma DescendingOrderSorted(keys: seq<int>)
    ensures forall p, q :: 0 <= p < q < |keys| ==>
              MoreImportant(keys, DescendingOrder(keys)[p], DescendingOrder(keys)[q])
    ensures forall p, q :: 0 <= p < |keys| && 0 <= q < |keys| && DescendingOrder(keys)[p] == DescendingOrder(keys)[q] ==> p == q
  {
    SortedIsOrderedPermutation(Negated(keys));
  }

  /** The flags getImportanceFlag_New returns: true exactly at the dataLength positions
    * placed first by the descending sort. */
  function ImportanceFlags(keys: seq<int>, dataLength: nat): (flags: seq<bool>)
    requires dataLength <= |keys|
    ensures |flags| == |keys|
  {
    seq(|keys|, x => x in DescendingOrder(keys)[..dataLength])
  }

  /** The flags getImportanceFlag returns: the data bytes fixed, the error-correction
    * bytes free. */
  function DataFirst(dataLength: nat, ecLength: nat): (flags: seq<bool>)
    ensures |flags| == dataLength + ecLength
  {
    seq(dataLength + ecLength, i => i < dataLength)
  }

  predicate Distinct(s: seq<nat>)
  {
    forall i, j :: 0 <= i < j < |s| ==> s[i] != s[j]
  }

  function Elements(s: seq<nat>): set<nat>
  {
    set x | x in s
  }

  lemma {:induction false} DistinctCardinality(s: seq<nat>)
    requires Distinct(s)
    ensures |Elements(s)| == |s|
  {
    if s != [] {
      var init := s[..|s| - 1];
      assert Distinct(init);
      DistinctCardinality(init);
      assert Elements(s) == Elements(init) + {s[|s| - 1]};
      assert s[|s| - 1] !in Elements(init);
    }
  }

  /** The indices holding the wanted flag. */
  function FlagSet(flag: seq<bool>, want: bool): set<nat>
  {
    set t | 0 <= t < |flag| && flag[t] == want
  }

  /** Positions lists every index holding the wanted flag, once, so it has as many
    * entries as there are such indices. */
  lemma PositionsCount(flag: seq<bool>, want: bool)
    ensures |Positions(flag, want)| == |FlagSet(flag, want)|
  {
    var ps := Positions(flag, want);
    assert Distinct(ps);
    DistinctCardinality(ps);
    forall t | t in FlagSet(flag, want)
      ensures t in Elements(ps)
    {
      PositionRank(flag, t, want);
    }
    assert Elements(ps) == FlagSet(flag, want);
  }

  /** The fixed positions are the first dataLength of the descending order. */
  lemma FixedSet(keys: seq<int>, dataLength: nat)
    requires dataLength <= |keys|
    ensures |FlagSet(ImportanceFlags(keys, dataLength), true)| == dataLength
  {
    var order := DescendingOrder(keys);
    DescendingOrderSorted(keys);
    var fixed := order[..dataLength];
    assert Distinct(fixed);
    DistinctCardinality(fixed);
    assert Elements(fixed) == FlagSet(ImportanceFlags(keys, dataLength), true);
  }

  /** The free positions are the rest of the descending order. */
  lemma FreeSet(keys: seq<int>, dataLength: nat)
    requires dataLength <= |keys|
    ensures |FlagSet(ImportanceFlags(keys, dataLength), false)| == |keys| - dataLength
  {
    var flags := ImportanceFlags(keys, dataLength);
    var order := DescendingOrder(keys);
    DescendingOrderSorted(keys);
    var free := order[dataLength..];
    assert Distinct(free);
    DistinctCardinality(free);
    forall t | t in Elements(free)
      ensures t in FlagSet(flags, false)
    {
      var q :| 0 <= q < |free| && free[q] == t;
      assert order[dataLength + q] == t;
      assert forall p :: 0 <= p < dataLength ==> order[..dataLength][p] == order[p] != order[dataLength + q];
    }
    forall t | t in FlagSet(flags, false)
      ensures t in Elements(free)
    {
      assert t in order;
      var q :| 0 <= q < |order| && order[q] == t;
      assert forall r :: 0 <= r < dataLength ==> order[..dataLength][r] == order[r];
      assert free[q - dataLength] == t;
    }
    assert Elements(free) == FlagSet(flags, false);
  }

  /** Exactly dataLength positions are fixed and the other ecLength are free, as the
    * erasure-fill encoder demands. */
  lemma ImportanceFlagsCount(keys: seq<int>, dataLength: nat)
    requires dataLength <= |keys|
    ensures |Positions(ImportanceFlags(keys, dataLength), true)| == dataLength
    ensures |Positions(ImportanceFlags(keys, dataLength), false)| == |keys| - dataLength
  {
    PositionsCount(ImportanceFlags(keys, dataLength), true);
    PositionsCount(ImportanceFlags(keys, dataLength), false);
    FixedSet(keys, dataLength);
    FreeSet(keys, dataLength);
  }

  /** Every fixed position is more important than every free one. */
  lemma ImportanceFlagsPrefer(keys: seq<int>, dataLength: nat, x: nat, y: nat)
    requires dataLength <= |keys| && x < |keys| && y < |keys|
    requires ImportanceFlags(keys, dataLength)[x] && !ImportanceFlags(keys, dataLength)[y]
    ensures MoreImportant(keys, x, y)
  {
    var order := DescendingOrder(keys);
    DescendingOrderSorted(keys);
    var p :| 0 <= p < dataLength && order[p] == x;
    assert y in order;
    var q :| 0 <= q < |order| && order[q] == y;
    assert forall r :: 0 <= r < dataLength ==> order[..dataLength][r] == order[r];
  }

  /** With all keys equal the sort keeps block order, so the data bytes are the fixed
    * ones: getImportanceFlag_New then agrees with getImportanceFlag. */
  lemma ImportanceFlagsTies(keys: seq<int>, dataLength: nat)
    requires dataLength <= |keys|
    requires forall x, y :: 0 <= x < |keys| && 0 <= y < |keys| ==> keys[x] == keys[y]
    ensures ImportanceFlags(keys, dataLength) == DataFirst(dataLength, |keys| - dataLength)
  {
    var negated := Negated(keys);
    SortEqualKeys(negated, |negated|);
    var order := DescendingOrder(keys);
    assert order == seq(|keys|, i => i);
    forall x | 0 <= x < |keys|
      ensures (x in order[..dataLength]) == (x < dataLength)
    {
      if x < dataLength {
        assert order[..dataLength][x] == x;
      }
    }
  }

  /** The fixed-data flags hold exactly dataLength fixed and ecLength free positions. */
  lemma DataFirstCount(dataLength: nat, ecLength: nat)
    ensures |Positions(DataFirst(dataLength, ecLength), true)| == dataLength
    ensures |Positions(DataFirst(dataLength, ecLength), false)| == ecLength
  {
    var keys := seq(dataLength + ecLength, _ => 0);
    ImportanceFlagsTies(keys, dataLength);
    ImportanceFlagsCount(keys, dataLength);
  }

  /** getImportanceFlag: the first dataLength entries true, the remaining ecLength false. */
  method GetImportanceFlag(dataLength: nat, ecLength: nat) returns (result: array<bool>)
    ensures fresh(result)
    ensures result[..] == DataFirst(dataLength, ecLength)
  {
    result := new bool[dataLength + ecLength](_ => false);
    var i := 0;
    while i < dataLength
      invariant i <= dataLength
      invariant forall x :: 0 <= x < result.Length ==> result[x] == (x < i)
    {
      result[i] := true;
      i := i + 1;
    }
    i := 0;
    while i < ecLength
      invariant i <= ecLength
      invariant forall x :: 0 <= x < result.Length ==> result[x] == (x < dataLength)
    {
      result[dataLength + i] := false;
      i := i + 1;
    }
  }

  /** getImportanceFlag_New: gathers the block's keys, sorts the positions by descending
    * importance (stably), marks the first dataLength true and the rest false. */
  method GetImportanceFlagNew(dataOffset: nat, dataLength: nat, ecOffset: nat, ecLength: nat, iv: seq<int>)
    returns (result: array<bool>)
    requires dataOffset + dataLength <= |iv| && ecOffset + ecLength <= |iv|
    ensures fresh(result)
    ensures result[..] == ImportanceFlags(BlockKeys(iv, dataOffset, dataLength, ecOffset, ecLength), dataLength)
  {
    ghost var keys := BlockKeys(iv, dataOffset, dataLength, ecOffset, ecLength);
    var n := dataLength + ecLength;
    var current := new int[n](_ => 0);
    var i := 0;
    while i < dataLength
      invariant i <= dataLength
      invariant forall x :: 0 <= x < i ==> current[x] == keys[x]
    {
      current[i] := iv[dataOffset + i];
      i := i + 1;
    }
    i := 0;
    while i < ecLength
      invariant i <= ecLength
      invariant forall x :: 0 <= x < dataLength + i ==> current[x] == keys[x]
    {
      current[dataLength + i] := iv[ecOffset + i];
      i := i + 1;
    }
    assert current[..] == keys;
    var order := DescendingOrder(current[..]);
    DescendingOrderSorted(keys);
    result := new bool[n](_ => false);
    i := 0;
    while i < dataLength
      invariant i <= dataLength
      invariant forall x :: 0 <= x < n ==> result[x] == (x in order[..i])
    {
      result[order[i]] := true;
      assert order[..i + 1] == order[..i] + [order[i]];
      i := i + 1;
    }
    i := 0;
    while i < ecLength
      invariant i <= ecLength
      invariant forall x :: 0 <= x < n ==> result[x] == (x in order[..dataLength])
    {
      assert order[dataLength + i] !in order[..dataLength];
      result[order[dataLength + i]] := false;
      i := i + 1;
    }
    assert result[..] == ImportanceFlags(keys, dataLength);
  }
}
