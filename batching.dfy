// The batch loop of the batched translator,
// `for i in range(0, len(text_elements), batch_size): text_elements[i:i + batch_size]`,
// as a list of slices, with the facts that make it a partition.

module Batching {
  import opened Basics

  /** The slices the loop visits. A step of 0 makes `range` raise, so it is
      excluded here and handled by the caller; a negative step gives an empty
      range, hence no batch. */
  function Batches<T>(s: seq<T>, size: int): seq<seq<T>>
    requires size != 0
    decreases |s|
  {
    if size < 0 || s == [] then []
    else
      var cut := Min(size, |s|);
      [s[..cut]] + Batches(s[cut..], size)
  }

  lemma {:induction false} MulNonNegative(a: int, b: int)
    requires a >= 0 && b >= 0
    ensures a * b >= 0
    decreases a
  {
    if a > 0 {
      MulNonNegative(a - 1, b);
      assert a * b == (a - 1) * b + b;
    }
  }

  /** Quotient and remainder of a natural number by a positive size. */
  lemma DivMod(p: int, size: int)
    requires p >= 0 && size > 0
    ensures p / size >= 0 && 0 <= p % size < size
    ensures (p / size) * size + p % size == p
    ensures (p / size) * size <= p
  {
  }

  lemma MulSucc(a: int, size: int)
    ensures (a + 1) * size == a * size + size
  {
  }

  /** Integer division is determined by quotient and remainder. */
  lemma DivUnique(x: int, size: int, q: int, r: int)
    requires size > 0 && 0 <= r < size && x == q * size + r
    ensures x / size == q && x % size == r
  {
    var q', r' := x / size, x % size;
    assert x == q' * size + r' && 0 <= r' < size;
    assert (q - q') * size == r' - r;
    if q > q' {
      MulNonNegative(q - q' - 1, size);
    } else if q < q' {
      MulNonNegative(q' - q - 1, size);
    }
  }

  /** The batches, put back together in order, are exactly the input list:
      no element is dropped, repeated or reordered. */
  lemma {:induction false} BatchesConcat<T>(s: seq<T>, size: int)
    requires size > 0
    ensures Concat(Batches(s, size)) == s
    decreases |s|
  {
    if s != [] {
      var cut := Min(size, |s|);
      var bs := Batches(s, size);
      assert bs[0] == s[..cut] && bs[1..] == Batches(s[cut..], size);
      BatchesConcat(s[cut..], size);
      assert s[..cut] + s[cut..] == s;
    }
  }

  /** Every batch is non-empty and holds at most `size` elements, and every
      batch but the last holds exactly `size`. */
  lemma {:induction false} BatchesShape<T>(s: seq<T>, size: int)
    requires size > 0
    ensures forall b :: 0 <= b < |Batches(s, size)| ==> 0 < |Batches(s, size)[b]| <= size
    ensures forall b :: 0 <= b < |Batches(s, size)| - 1 ==> |Batches(s, size)[b]| == size
    decreases |s|
  {
    if s != [] {
      var cut := Min(size, |s|);
      var bs := Batches(s, size);
      var rest := Batches(s[cut..], size);
      assert bs[1..] == rest;
      BatchesShape(s[cut..], size);
      if rest != [] {
        assert |s| > size;
      }
      forall b | 0 <= b < |bs|
        ensures 0 < |bs[b]| <= size && (b < |bs| - 1 ==> |bs[b]| == size)
      {
        if b > 0 {
          assert bs[b] == rest[b - 1];
          assert 0 < |rest[b - 1]| <= size;
          if b < |bs| - 1 {
            assert b - 1 < |rest| - 1;
            assert |rest[b - 1]| == size;
          }
        } else {
          assert |bs[0]| == cut;
        }
      }
    }
  }

  /** ceil(n / size) drops by one when n drops by size. */
  lemma CeilStep(n: int, size: int)
    requires 0 < size < n
    ensures (n + size - 1) / size == (n - 1) / size + 1
  {
    var x := n - 1;
    var q, r := x / size, x % size;
    assert x == q * size + r && 0 <= r < size;
    assert (q + 1) * size == q * size + size;
    DivUnique(x + size, size, q + 1, r);
  }

  /** There are ceil(n / size) batches for a list of n elements. */
  lemma {:induction false} BatchesCount<T>(s: seq<T>, size: int)
    requires size > 0
    ensures |Batches(s, size)| == (|s| + size - 1) / size
    decreases |s|
  {
    var bs := Batches(s, size);
    if s == [] {
      DivUnique(size - 1, size, 0, size - 1);
    } else if |s| <= size {
      assert Min(size, |s|) == |s| && s[|s|..] == [];
      assert Batches(s[|s|..], size) == [];
      DivUnique(|s| + size - 1, size, 1, |s| - 1);
    } else {
      var rest := s[size..];
      assert |bs| == 1 + |Batches(rest, size)|;
      BatchesCount(rest, size);
      CeilStep(|s|, size);
      assert |rest| + size - 1 == |s| - 1;
    }
  }

  /** Batch b is the slice `s[b * size : b * size + size]` (clamped at the end
      of the list): the batches are the slices at offsets 0, size, 2 * size, ...
      of `range(0, len(s), size)`. */
  lemma {:induction false} BatchesSlices<T>(s: seq<T>, size: int, b: nat)
    requires size > 0 && b < |Batches(s, size)|
    ensures b * size < |s|
    ensures Batches(s, size)[b] == s[b * size .. Min(b * size + size, |s|)]
    decreases b
  {
    if b > 0 {
      var rest := s[size..];
      assert |s| > size && Batches(s, size)[b] == Batches(rest, size)[b - 1];
      BatchesSlices(rest, size, b - 1);
      MulNonNegative(b - 1, size);
      MulSucc(b - 1, size);
      var m: nat := (b - 1) * size;
      assert b * size == m + size;
      SliceOfDrop(s, size, m);
      assert Min(b * size + size, |s|) == Min(m + size + size, |s|);
    }
  }

  /** Batch number c exists exactly when its offset c * size falls inside
      the list: `range(0, len(s), size)` visits c * size iff it is below len(s). */
  lemma {:induction false} BatchExists<T>(s: seq<T>, size: int, c: nat)
    requires size > 0
    ensures c < |Batches(s, size)| <==> c * size < |s|
    decreases c
  {
    MulNonNegative(c, size);
    if s != [] && c > 0 {
      var cut := Min(size, |s|);
      assert Batches(s, size) == [s[..cut]] + Batches(s[cut..], size);
      BatchExists(s[cut..], size, c - 1);
      MulSucc(c - 1, size);
    }
  }

  lemma SliceOfDrop<T>(s: seq<T>, size: nat, m: nat)
    requires size <= |s| && m < |s| - size
    ensures s[size..][m .. Min(m + size, |s| - size)] == s[m + size .. Min(m + size + size, |s|)]
  {
  }

  /** A list of position batches in document order: each batch strictly
      increasing, and every position of a batch before every position of a
      later batch. In particular no position occurs twice. */
  predicate Ordered(bs: seq<seq<nat>>)
  {
    (forall b :: 0 <= b < |bs| ==> Increasing(bs[b]))
    && (forall b1, b2, k1, k2 :: 0 <= b1 < b2 < |bs| && 0 <= k1 < |bs[b1]| && 0 <= k2 < |bs[b2]|
          ==> bs[b1][k1] < bs[b2][k2])
  }

  /** Cutting a strictly increasing list of positions into batches gives
      batches in document order, whose positions stay within the list's bounds. */
  lemma {:induction false} BatchesOrdered(s: seq<nat>, size: int, lo: int, hi: int)
    requires size != 0 && Increasing(s)
    requires forall p :: 0 <= p < |s| ==> lo <= s[p] < hi
    ensures Ordered(Batches(s, size))
    ensures forall b, k :: 0 <= b < |Batches<nat>(s, size)| && 0 <= k < |Batches<nat>(s, size)[b]| ==>
      lo <= Batches<nat>(s, size)[b][k] < hi
    decreases |s|
  {
    if size > 0 && s != [] {
      var cut := Min(size, |s|);
      var bs := Batches<nat>(s, size);
      var head, tail := s[..cut], s[cut..];
      var rest := Batches<nat>(tail, size);
      assert bs == [head] + rest;
      var lo' := s[cut - 1] + 1;
      BatchesOrdered(tail, size, lo', hi);
      forall b, k | 0 <= b < |bs| && 0 <= k < |bs[b]|
        ensures lo <= bs[b][k] < hi
      {
        if b > 0 {
          assert bs[b][k] == rest[b - 1][k];
          assert lo <= s[cut - 1];
        }
      }
      forall b1, b2, k1, k2 | 0 <= b1 < b2 < |bs| && 0 <= k1 < |bs[b1]| && 0 <= k2 < |bs[b2]|
        ensures bs[b1][k1] < bs[b2][k2]
      {
        assert bs[b2][k2] == rest[b2 - 1][k2];
        if b1 > 0 {
          assert bs[b1][k1] == rest[b1 - 1][k1];
        } else {
          assert bs[b1][k1] == s[k1] && k1 <= cut - 1;
        }
      }
      forall b | 0 <= b < |bs|
        ensures Increasing(bs[b])
      {
        if b > 0 {
          assert bs[b] == rest[b - 1];
        }
      }
    }
  }

  /** Every position of every batch is taken from the list that was cut. */
  lemma {:induction false} BatchesMembers<T>(s: seq<T>, size: int)
    requires size != 0
    ensures forall b, k :: 0 <= b < |Batches(s, size)| && 0 <= k < |Batches(s, size)[b]| ==>
      Batches(s, size)[b][k] in s
    decreases |s|
  {
    if size > 0 && s != [] {
      var cut := Min(size, |s|);
      var bs := Batches(s, size);
      var rest := Batches(s[cut..], size);
      assert bs == [s[..cut]] + rest;
      BatchesMembers(s[cut..], size);
      forall b, k | 0 <= b < |bs| && 0 <= k < |bs[b]|
        ensures bs[b][k] in s
      {
        if b > 0 {
          assert bs[b][k] == rest[b - 1][k];
          assert bs[b][k] in s[cut..];
        } else {
          assert bs[b][k] == s[k];
        }
      }
    }
  }

  /** Positions below a bound stay below it once cut into batches. */
  lemma BatchesBounded(s: seq<nat>, size: int, hi: int)
    requires size != 0
    requires forall p :: 0 <= p < |s| ==> s[p] < hi
    ensures forall b, k :: 0 <= b < |Batches<nat>(s, size)| && 0 <= k < |Batches<nat>(s, size)[b]| ==>
      Batches<nat>(s, size)[b][k] < hi
  {
    BatchesMembers(s, size);
  }
}
