/** Column-major interleaving of blocks, as section 7.6 of ISO/IEC 18004 places the
  * codewords of several Reed-Solomon blocks: first entry 0 of every block in block
  * order, then entry 1 of every block long enough to have one, and so on. */
module Interleaving {
  import opened GF256
  import opened BitArrays

  /** Entry i of each of the first j blocks that is long enough to have one. */
  function ColumnPart<T>(blocks: seq<seq<T>>, i: nat, j: nat): seq<T>
    requires j <= |blocks|
  {
    if j == 0 then []
    else ColumnPart(blocks, i, j - 1) + (if i < |blocks[j - 1]| then [blocks[j - 1][i]] else [])
  }

  /** Columns 0 .. width - 1 of the blocks, one after the other. */
  function ColumnMajor<T>(blocks: seq<seq<T>>, width: nat): seq<T>
  {
    if width == 0 then [] else ColumnMajor(blocks, width - 1) + ColumnPart(blocks, width - 1, |blocks|)
  }

  /** The length of the longest block (0 for no blocks), as the interleaver's running
    * Math.max computes it. */
  function MaxLength<T>(blocks: seq<seq<T>>): (m: nat)
    ensures forall j :: 0 <= j < |blocks| ==> |blocks[j]| <= m
  {
    if blocks == [] then 0
    else
      var m := MaxLength(blocks[..|blocks| - 1]);
      assert forall j :: 0 <= j < |blocks| - 1 ==> blocks[..|blocks| - 1][j] == blocks[j];
      if |blocks[|blocks| - 1]| > m then |blocks[|blocks| - 1]| else m
  }

  /** The blocks one after another. */
  function Concat<T>(blocks: seq<seq<T>>): seq<T>
  {
    if blocks == [] then [] else Concat(blocks[..|blocks| - 1]) + blocks[|blocks| - 1]
  }

  /** The number of entries of the first j blocks below column width. */
  function Clipped<T>(blocks: seq<seq<T>>, width: nat, j: nat): nat
    requires j <= |blocks|
  {
    if j == 0 then 0
    else Clipped(blocks, width, j - 1) + (if |blocks[j - 1]| < width then |blocks[j - 1]| else width)
  }

  /** Widening the clip by one column adds column width to the count. */
  lemma {:induction false} ClippedStep<T>(blocks: seq<seq<T>>, width: nat, j: nat)
    requires j <= |blocks|
    ensures Clipped(blocks, width + 1, j) == Clipped(blocks, width, j) + |ColumnPart(blocks, width, j)|
  {
    if j > 0 {
      ClippedStep(blocks, width, j - 1);
    }
  }

  /** Columns 0 .. width - 1 hold exactly the entries below column width. */
  lemma {:induction false} ColumnMajorClipped<T>(blocks: seq<seq<T>>, width: nat)
    ensures |ColumnMajor(blocks, width)| == Clipped(blocks, width, |blocks|)
  {
    if width == 0 {
      ClippedZero(blocks, |blocks|);
    } else {
      ColumnMajorClipped(blocks, width - 1);
      ClippedStep(blocks, width - 1, |blocks|);
    }
  }

  lemma {:induction false} ClippedZero<T>(blocks: seq<seq<T>>, j: nat)
    requires j <= |blocks|
    ensures Clipped(blocks, 0, j) == 0
  {
    if j > 0 {
      ClippedZero(blocks, j - 1);
    }
  }

  /** A clip at least as wide as every block keeps every entry. */
  lemma {:induction false} ClippedAll<T>(blocks: seq<seq<T>>, width: nat, j: nat)
    requires j <= |blocks|
    requires forall b :: 0 <= b < |blocks| ==> |blocks[b]| <= width
    ensures Clipped(blocks, width, j) == |Concat(blocks[..j])|
  {
    if j > 0 {
      ClippedAll(blocks, width, j - 1);
      assert blocks[..j][..j - 1] == blocks[..j - 1];
    }
  }

  /** Interleaving to the full width places every entry of every block exactly once:
    * the output is as long as the blocks together. */
  lemma ColumnMajorLength<T>(blocks: seq<seq<T>>, width: nat)
    requires forall b :: 0 <= b < |blocks| ==> |blocks[b]| <= width
    ensures |ColumnMajor(blocks, width)| == |Concat(blocks)|
  {
    ColumnMajorClipped(blocks, width);
    ClippedAll(blocks, width, |blocks|);
    assert blocks[..|blocks|] == blocks;
  }

  /** Columns past the longest block are empty. */
  lemma {:induction false} ColumnPartEmpty<T>(blocks: seq<seq<T>>, i: nat, j: nat)
    requires j <= |blocks|
    requires forall b :: 0 <= b < |blocks| ==> |blocks[b]| <= i
    ensures ColumnPart(blocks, i, j) == []
  {
    if j > 0 {
      ColumnPartEmpty(blocks, i, j - 1);
    }
  }

  /** Interleaving any wider than the longest block gives the same output. */
  lemma {:induction false} ColumnMajorWidth<T>(blocks: seq<seq<T>>, width: nat, wider: nat)
    requires forall b :: 0 <= b < |blocks| ==> |blocks[b]| <= width
    requires width <= wider
    ensures ColumnMajor(blocks, wider) == ColumnMajor(blocks, width)
    decreases wider
  {
    if width < wider {
      ColumnMajorWidth(blocks, width, wider - 1);
      ColumnPartEmpty(blocks, wider - 1, |blocks|);
      var shorter := ColumnMajor(blocks, wider - 1);
      assert ColumnMajor(blocks, wider) == shorter + ColumnPart(blocks, wider - 1, |blocks|);
      assert shorter + [] == shorter;
    }
  }

  /** Sequence helper: a prefix one longer is the prefix and the next element. */
  lemma PrefixSnoc<T>(s: seq<T>, i: nat)
    requires i < |s|
    ensures s[..i + 1] == s[..i] + [s[i]]
  {
  }

  lemma MaxLengthSnoc<T>(parts: seq<seq<T>>, x: seq<T>)
    ensures MaxLength(parts + [x]) == if |x| > MaxLength(parts) then |x| else MaxLength(parts)
  {
    assert (parts + [x])[..|parts|] == parts;
  }

  /** The columns written so far are a prefix of all of them. */
  lemma {:induction false} ColumnPartPrefix<T>(blocks: seq<seq<T>>, i: nat, j: nat, k: nat)
    requires j <= k <= |blocks|
    ensures ColumnPart(blocks, i, j) <= ColumnPart(blocks, i, k)
    decreases k - j
  {
    if j < k {
      ColumnPartPrefix(blocks, i, j, k - 1);
    }
  }

  lemma {:induction false} ColumnMajorPrefix<T>(blocks: seq<seq<T>>, width: nat, wider: nat)
    requires width <= wider
    ensures ColumnMajor(blocks, width) <= ColumnMajor(blocks, wider)
    decreases wider - width
  {
    if width < wider {
      ColumnMajorPrefix(blocks, width, wider - 1);
    }
  }

  // ---------------------------------------------------------------- every entry once

  /** Each block cut to its first width entries. */
  function Truncated<T>(blocks: seq<seq<T>>, width: nat): (r: seq<seq<T>>)
    ensures |r| == |blocks|
  {
    seq(|blocks|, b requires 0 <= b < |blocks| => if |blocks[b]| <= width then blocks[b] else blocks[b][..width])
  }

  lemma ConcatSnoc<T>(blocks: seq<seq<T>>, j: nat)
    requires 0 < j <= |blocks|
    ensures Concat(blocks[..j]) == Concat(blocks[..j - 1]) + blocks[j - 1]
  {
    assert blocks[..j][..j - 1] == blocks[..j - 1];
  }

  /** Widening the cut by one column adds exactly the column before width. */
  lemma {:induction false} TruncatedStep<T>(blocks: seq<seq<T>>, width: nat, j: nat)
    requires 0 < width && j <= |blocks|
    ensures multiset(Concat(Truncated(blocks, width)[..j]))
            == multiset(Concat(Truncated(blocks, width - 1)[..j])) + multiset(ColumnPart(blocks, width - 1, j))
  {
    if j > 0 {
      TruncatedStep(blocks, width, j - 1);
      var wide := Truncated(blocks, width);
      var narrow := Truncated(blocks, width - 1);
      ConcatSnoc(wide, j);
      ConcatSnoc(narrow, j);
      var b := blocks[j - 1];
      var column := if width - 1 < |b| then [b[width - 1]] else [];
      var before := ColumnPart(blocks, width - 1, j - 1);
      assert ColumnPart(blocks, width - 1, j) == before + column;
      assert wide[j - 1] == if |b| <= width then b else b[..width];
      assert narrow[j - 1] == if |b| <= width - 1 then b else b[..width - 1];
      TruncatedEntry(b, width);
      MultisetSnoc(Concat(wide[..j - 1]), wide[j - 1], Concat(narrow[..j - 1]), narrow[j - 1], before, column);
    }
  }

  /** If a splits as n and c, then a + x splits as n + y and c + z whenever x is y + z. */
  lemma MultisetSnoc<T>(a: seq<T>, x: seq<T>, n: seq<T>, y: seq<T>, c: seq<T>, z: seq<T>)
    requires multiset(a) == multiset(n) + multiset(c)
    requires x == y + z
    ensures multiset(a + x) == multiset(n + y) + multiset(c + z)
  {
    calc {
      multiset(a + x);
      multiset(a) + multiset(y + z);
      multiset(n) + multiset(c) + (multiset(y) + multiset(z));
      multiset(n) + multiset(y) + (multiset(c) + multiset(z));
    }
  }

  lemma TruncatedEntry<T>(b: seq<T>, width: nat)
    requires 0 < width
    ensures (if |b| <= width then b else b[..width])
            == (if |b| <= width - 1 then b else b[..width - 1]) + (if width - 1 < |b| then [b[width - 1]] else [])
  {
    if width - 1 < |b| {
      assert b[..width] == b[..width - 1] + [b[width - 1]];
    }
  }

  lemma {:induction false} TruncatedZero<T>(blocks: seq<seq<T>>, j: nat)
    requires j <= |blocks|
    ensures Concat(Truncated(blocks, 0)[..j]) == []
  {
    if j > 0 {
      TruncatedZero(blocks, j - 1);
      ConcatSnoc(Truncated(blocks, 0), j);
    }
  }

  /** The first width columns hold the entries below column width, each once. */
  lemma {:induction false} ColumnMajorMultiset<T>(blocks: seq<seq<T>>, width: nat)
    ensures multiset(ColumnMajor(blocks, width)) == multiset(Concat(Truncated(blocks, width)))
  {
    if width == 0 {
      TruncatedNone(blocks);
    } else {
      ColumnMajorMultiset(blocks, width - 1);
      ColumnMajorMultisetStep(blocks, width);
    }
  }

  /** One more column on both sides keeps the two multisets equal. */
  lemma ColumnMajorMultisetStep<T>(blocks: seq<seq<T>>, width: nat)
    requires 0 < width
    requires multiset(ColumnMajor(blocks, width - 1)) == multiset(Concat(Truncated(blocks, width - 1)))
    ensures multiset(ColumnMajor(blocks, width)) == multiset(Concat(Truncated(blocks, width)))
  {
    var before, column := ColumnMajor(blocks, width - 1), ColumnPart(blocks, width - 1, |blocks|);
    calc {
      multiset(ColumnMajor(blocks, width));
      multiset(before + column);
      { MultisetConcat(before, column); }
      multiset(before) + multiset(column);
      multiset(Concat(Truncated(blocks, width - 1))) + multiset(column);
      { TruncatedWiden(blocks, width); }
      multiset(Concat(Truncated(blocks, width)));
    }
  }

  lemma TruncatedNone<T>(blocks: seq<seq<T>>)
    ensures Concat(Truncated(blocks, 0)) == []
  {
    TruncatedZero(blocks, |blocks|);
    WholePrefix(Truncated(blocks, 0));
  }

  lemma TruncatedWiden<T>(blocks: seq<seq<T>>, width: nat)
    requires 0 < width
    ensures multiset(Concat(Truncated(blocks, width)))
            == multiset(Concat(Truncated(blocks, width - 1))) + multiset(ColumnPart(blocks, width - 1, |blocks|))
  {
    TruncatedStep(blocks, width, |blocks|);
    WholePrefix(Truncated(blocks, width));
    WholePrefix(Truncated(blocks, width - 1));
  }

  /** Sequence helper: the prefix of full length is the sequence. */
  lemma WholePrefix<S>(s: seq<S>)
    ensures s[..|s|] == s
  {
  }

  /** Sequence helper: the multiset of a concatenation. */
  lemma MultisetConcat<T>(x: seq<T>, y: seq<T>)
    ensures multiset(x + y) == multiset(x) + multiset(y)
  {
  }

  /** Interleaving to the full width is a permutation of the blocks laid end to end:
    * every entry of every block appears, as often as it appears in the blocks. */
  lemma ColumnMajorPermutes<T>(blocks: seq<seq<T>>, width: nat)
    requires forall b :: 0 <= b < |blocks| ==> |blocks[b]| <= width
    ensures multiset(ColumnMajor(blocks, width)) == multiset(Concat(blocks))
  {
    ColumnMajorMultiset(blocks, width);
    assert Truncated(blocks, width) == blocks;
  }

  // ---------------------------------------------------------------- gathering

  /** Every entry of order indexes src. */
  predicate Indexes<T>(order: seq<nat>, src: seq<T>)
  {
    forall p :: 0 <= p < |order| ==> order[p] < |src|
  }

  /** src read in the given order. */
  function Gather<T>(src: seq<T>, order: seq<nat>): (g: seq<T>)
    requires Indexes(order, src)
    ensures |g| == |order|
  {
    seq(|order|, p requires 0 <= p < |order| => src[order[p]])
  }

  /** Blocks of values that are src read at the positions in the blocks of indices. */
  ghost predicate Mirrors<T>(values: seq<seq<T>>, indices: seq<seq<nat>>, src: seq<T>)
  {
    && |values| == |indices|
    && (forall b :: 0 <= b < |values| ==> |values[b]| == |indices[b]|)
    && (forall b, i :: 0 <= b < |indices| && 0 <= i < |indices[b]| ==>
          indices[b][i] < |src| && values[b][i] == src[indices[b][i]])
  }

  /** Reading in two orders one after the other. */
  lemma GatherAppend<T>(src: seq<T>, x: seq<nat>, y: seq<nat>)
    requires Indexes(x, src) && Indexes(y, src)
    ensures Indexes(x + y, src)
    ensures Gather(src, x + y) == Gather(src, x) + Gather(src, y)
  {
  }

  lemma {:induction false} ColumnPartGather<T>(values: seq<seq<T>>, indices: seq<seq<nat>>, src: seq<T>, i: nat, j: nat)
    requires Mirrors(values, indices, src) && j <= |indices|
    ensures Indexes(ColumnPart(indices, i, j), src)
    ensures ColumnPart(values, i, j) == Gather(src, ColumnPart(indices, i, j))
  {
    if j > 0 {
      ColumnPartGather(values, indices, src, i, j - 1);
      var tail := if i < |indices[j - 1]| then [indices[j - 1][i]] else [];
      GatherAppend(src, ColumnPart(indices, i, j - 1), tail);
    }
  }

  /** Interleaving commutes with reading through an index map: interleaving the values
    * is reading src in the interleaved order of the indices. */
  lemma {:induction false} ColumnMajorGather<T>(values: seq<seq<T>>, indices: seq<seq<nat>>, src: seq<T>, width: nat)
    requires Mirrors(values, indices, src)
    ensures Indexes(ColumnMajor(indices, width), src)
    ensures ColumnMajor(values, width) == Gather(src, ColumnMajor(indices, width))
  {
    if width > 0 {
      ColumnMajorGather(values, indices, src, width - 1);
      ColumnMajorGatherStep(values, indices, src, width);
    }
  }

  /** One more column of values is src read at one more column of indices. */
  lemma ColumnMajorGatherStep<T>(values: seq<seq<T>>, indices: seq<seq<nat>>, src: seq<T>, width: nat)
    requires Mirrors(values, indices, src) && 0 < width
    requires Indexes(ColumnMajor(indices, width - 1), src)
    requires ColumnMajor(values, width - 1) == Gather(src, ColumnMajor(indices, width - 1))
    ensures Indexes(ColumnMajor(indices, width), src)
    ensures ColumnMajor(values, width) == Gather(src, ColumnMajor(indices, width))
  {
    ColumnPartGather(values, indices, src, width - 1, |indices|);
    var before, column := ColumnMajor(indices, width - 1), ColumnPart(indices, width - 1, |indices|);
    assert ColumnMajor(indices, width) == before + column;
    assert ColumnMajor(values, width) == ColumnMajor(values, width - 1) + ColumnPart(values, width - 1, |values|);
    GatherAppend(src, before, column);
  }

  /** Concatenating more blocks only extends the result. */
  lemma {:induction false} ConcatPrefix<T>(blocks: seq<seq<T>>, j: nat, k: nat)
    requires j <= k <= |blocks|
    ensures Concat(blocks[..j]) <= Concat(blocks[..k])
  {
    if j < k {
      ConcatPrefix(blocks, j, k - 1);
      ConcatSnoc(blocks, k);
    }
  }

  /** Entry i of block b sits after the blocks before b in the concatenation. */
  lemma ConcatAt<T>(blocks: seq<seq<T>>, b: nat, i: nat)
    requires b < |blocks| && i < |blocks[b]|
    ensures |Concat(blocks[..b])| + i < |Concat(blocks)|
    ensures Concat(blocks)[|Concat(blocks[..b])| + i] == blocks[b][i]
  {
    ConcatSnoc(blocks, b + 1);
    ConcatPrefix(blocks, b + 1, |blocks|);
    WholePrefix(blocks);
  }

  /** The longest length depends only on the lengths. */
  lemma {:induction false} MaxLengthShape<S, T>(a: seq<seq<S>>, b: seq<seq<T>>)
    requires |a| == |b| && forall k :: 0 <= k < |a| ==> |a[k]| == |b[k]|
    ensures MaxLength(a) == MaxLength(b)
  {
    if a != [] {
      MaxLengthShape(a[..|a| - 1], b[..|b| - 1]);
    }
  }

  // ---------------------------------------------------------------- writing bytes out

  /** One more byte written after the bytes so far. */
  lemma ByteBitsAppend(start: seq<bool>, out: seq<Byte>, x: Byte)
    ensures start + ByteBits(out) + ToBits(x, 8) == start + ByteBits(out + [x])
  {
    assert (out + [x])[..|out|] == out;
    AppendAssoc(start, ByteBits(out), ToBits(x, 8));
  }

  /** The bits of two byte runs, one after the other. */
  lemma {:induction false} ByteBitsConcat(a: seq<Byte>, b: seq<Byte>)
    ensures ByteBits(a + b) == ByteBits(a) + ByteBits(b)
    decreases |b|
  {
    if b != [] {
      var init, last := b[..|b| - 1], b[|b| - 1];
      var ab := a + b;
      assert ab[..|ab| - 1] == a + init && ab[|ab| - 1] == last;
      assert ByteBits(ab) == ByteBits(a + init) + ToBits(last, 8);
      assert ByteBits(b) == ByteBits(init) + ToBits(last, 8);
      ByteBitsConcat(a, init);
      AppendAssoc(ByteBits(a), ByteBits(init), ToBits(last, 8));
    } else {
      assert a + b == a;
    }
  }

  /** The inner placing loop of the interleaver: entry i of every block long enough,
    * eight bits each. */
  method AppendColumn(result: BitArray, blocks: seq<seq<Byte>>, i: nat)
    modifies result
    ensures result.bits == old(result.bits) + ByteBits(ColumnPart(blocks, i, |blocks|))
  {
    ghost var start := result.bits;
    for j := 0 to |blocks|
      invariant result.bits == start + ByteBits(ColumnPart(blocks, i, j))
    {
      if i < |blocks[j]| {
        assert ColumnPart(blocks, i, j + 1) == ColumnPart(blocks, i, j) + [blocks[j][i]];
        result.AppendBits(blocks[j][i], 8);
        ByteBitsAppend(start, ColumnPart(blocks, i, j), blocks[j][i]);
      } else {
        assert ColumnPart(blocks, i, j + 1) == ColumnPart(blocks, i, j);
      }
    }
  }

  /** The nested placing loops of the interleaver: the columns in turn. */
  method AppendColumns(result: BitArray, blocks: seq<seq<Byte>>, width: nat)
    modifies result
    ensures result.bits == old(result.bits) + ByteBits(ColumnMajor(blocks, width))
  {
    ghost var start := result.bits;
    for i := 0 to width
      invariant result.bits == start + ByteBits(ColumnMajor(blocks, i))
    {
      AppendColumn(result, blocks, i);
      ByteBitsConcat(ColumnMajor(blocks, i), ColumnPart(blocks, i, |blocks|));
      AppendAssoc(start, ByteBits(ColumnMajor(blocks, i)), ByteBits(ColumnPart(blocks, i, |blocks|)));
    }
  }
}
