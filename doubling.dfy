/** The recursive-doubling structure of the scan: power-of-two lengths, the
 *  pairwise-minimum reduction that fills the half-length buffer Z, and the
 *  facts that make each fill iteration correct. */
module Doubling {
  import opened Minima

  /** `n` is a power of two: 1, or an even number whose half is one. Every
   *  length the scan meets, at every depth of its recursion, is one. */
  predicate IsPowerOfTwo(n: int)
    decreases n
  {
    n == 1 || (n >= 2 && n % 2 == 0 && IsPowerOfTwo(n / 2))
  }

  /** 2 to the power `k`. */
  function Pow2(k: nat): nat
  {
    if k == 0 then 1 else 2 * Pow2(k - 1)
  }

  /** Every power 2^k passes IsPowerOfTwo ... */
  lemma {:induction false} Pow2IsPowerOfTwo(k: nat)
    ensures IsPowerOfTwo(Pow2(k))
  {
    if k > 0 {
      Pow2IsPowerOfTwo(k - 1);
      assert Pow2(k) / 2 == Pow2(k - 1);
    }
  }

  /** ... and every number that passes it is some 2^k. */
  lemma {:induction false} PowerOfTwoExponent(n: int) returns (k: nat)
    requires IsPowerOfTwo(n)
    ensures Pow2(k) == n
    decreases n
  {
    if n == 1 {
      k := 0;
    } else {
      var h := PowerOfTwoExponent(n / 2);
      k := h + 1;
    }
  }

  /** The recursion of the scan as written: a call with `length` returns
   *  from its base case `1 == length` within `depth` nested calls, each
   *  nested call taking `length / 2`. */
  predicate ReachesBase(length: nat, depth: nat)
    decreases depth
  {
    length == 1 || (depth > 0 && ReachesBase(length / 2, depth - 1))
  }

  /** As written, a call with `length == 0` misses the base case and calls
   *  itself with `0 / 2 == 0` again: no depth of recursion ever returns. */
  lemma {:induction false} ZeroLengthNeverReturns(depth: nat)
    ensures !ReachesBase(0, depth)
  {
    if depth > 0 {
      ZeroLengthNeverReturns(depth - 1);
    }
  }

  /** On the lengths the scan is meant for, the positive powers of two that
   *  every scan method requires, the recursion returns after exactly
   *  `k` nested calls, where `length == 2^k`. */
  lemma {:induction false} PowerOfTwoReachesBase(length: nat) returns (k: nat)
    requires IsPowerOfTwo(length)
    ensures Pow2(k) == length && ReachesBase(length, k)
    decreases length
  {
    if length == 1 {
      k := 0;
    } else {
      var h := PowerOfTwoReachesBase(length / 2);
      k := h + 1;
    }
  }

  /** With a power-of-two `length` above 1, every index the scan touches is
   *  in range: the half length is again a power of two, the reduce reads
   *  `i + 1` only below `length`, the prefix fill reads `Z[i/2 - 1]` only
   *  for even `i >= 2`, and the suffix fill reads `Z[i/2 + 1]` only for odd
   *  `i <= length - 3`, all inside the `length / 2` cells of `Z`. */
  lemma IndicesInRange(length: int, i: int)
    requires IsPowerOfTwo(length) && length > 1 && 0 <= i < length
    ensures length % 2 == 0 && IsPowerOfTwo(length / 2)
    ensures i % 2 == 0 ==> i + 1 < length
    ensures i % 2 == 0 && i >= 2 ==> 0 <= i / 2 - 1 < length / 2
    ensures i % 2 == 1 && i <= length - 3 ==> 0 <= i / 2 + 1 < length / 2
  {
  }

  /** The reduce step: the minimum of each consecutive pair `s[2k], s[2k+1]`,
   *  which is what the reduce loop leaves in Z. */
  ghost function Pairs(s: seq<int>): seq<int>
    requires |s| % 2 == 0
  {
    seq(|s| / 2, k requires 0 <= k < |s| / 2 => Min(s[2 * k], s[2 * k + 1]))
  }

  /** Prefix minimum `k` of the pair minima is the prefix minimum of `s` at
   *  the second element of pair `k`. */
  lemma {:induction false} PairsPrefMin(s: seq<int>, k: int)
    requires |s| % 2 == 0 && 0 <= k < |s| / 2
    ensures PrefMin(Pairs(s), k) == PrefMin(s, 2 * k + 1)
  {
    if k > 0 {
      PairsPrefMin(s, k - 1);
    }
  }

  /** Suffix minimum `k` of the pair minima is the suffix minimum of `s` at
   *  the first element of pair `k`. */
  lemma {:induction false} PairsSufMin(s: seq<int>, k: int)
    requires |s| % 2 == 0 && 0 <= k < |s| / 2
    ensures SufMin(Pairs(s), k) == SufMin(s, 2 * k)
    decreases |s| - k
  {
    if k < |s| / 2 - 1 {
      PairsSufMin(s, k + 1);
    }
  }

  /** One iteration of the prefix fill. Once `z` holds the prefix minima of
   *  the pair minima, the prefix minimum of `s` at `i` is `s[0]` for `i = 0`,
   *  `z[i/2]` for odd `i`, and `min(s[i], z[i/2 - 1])` for even `i > 0`: it
   *  depends on `s[i]` and `z` only, never on another iteration's write. */
  lemma PrefixFillAt(s: seq<int>, z: seq<int>, i: int)
    requires |s| % 2 == 0 && z == PrefixMinima(Pairs(s)) && 0 <= i < |s|
    ensures PrefMin(s, i) ==
      if i == 0 then s[0]
      else if i % 2 == 1 then z[i / 2]
      else Min(s[i], z[i / 2 - 1])
  {
    if i == 0 {
    } else if i % 2 == 1 {
      var k := i / 2;
      assert 2 * k + 1 == i;
      assert z[k] == PrefMin(Pairs(s), k);
      PairsPrefMin(s, k);
    } else {
      var k := i / 2 - 1;
      assert 2 * k + 1 == i - 1;
      assert z[k] == PrefMin(Pairs(s), k);
      PairsPrefMin(s, k);
    }
  }

  /** One iteration of the suffix fill. Once `z` holds the suffix minima of
   *  the pair minima, the suffix minimum of `s` at `i` is `s[i]` for the last
   *  index, `z[i/2]` for even `i`, and `min(s[i], z[i/2 + 1])` for the other
   *  odd `i`. */
  lemma SuffixFillAt(s: seq<int>, z: seq<int>, i: int)
    requires |s| % 2 == 0 && z == SuffixMinima(Pairs(s)) && 0 <= i < |s|
    ensures SufMin(s, i) ==
      if i == |s| - 1 then s[i]
      else if i % 2 == 0 then z[i / 2]
      else Min(s[i], z[i / 2 + 1])
  {
    if i == |s| - 1 {
    } else if i % 2 == 0 {
      var k := i / 2;
      assert 2 * k == i;
      assert z[k] == SufMin(Pairs(s), k);
      PairsSufMin(s, k);
    } else {
      var k := i / 2 + 1;
      assert 2 * k == i + 1 && k < |s| / 2;
      assert z[k] == SufMin(Pairs(s), k);
      PairsSufMin(s, k);
    }
  }

  /** The prefix fill as a whole: what the fill loop writes into a buffer
   *  holding `s`, given the recursively scanned half-length buffer `z`.
   *  Cell 0 keeps `s[0]`; every other cell depends on its own old value
   *  and on `z` only. */
  ghost function FillPrefix(s: seq<int>, z: seq<int>): (r: seq<int>)
    requires |s| % 2 == 0 && |z| == |s| / 2
  {
    seq(|s|, i requires 0 <= i < |s| =>
      if i == 0 then s[0]
      else if i % 2 == 1 then z[i / 2]
      else Min(s[i], z[i / 2 - 1]))
  }

  /** The suffix fill as a whole: the last cell keeps its value; every other
   *  cell depends on its own old value and on `z` only. */
  ghost function FillSuffix(s: seq<int>, z: seq<int>): (r: seq<int>)
    requires |s| % 2 == 0 && |z| == |s| / 2
  {
    seq(|s|, i requires 0 <= i < |s| =>
      if i == |s| - 1 then s[i]
      else if i % 2 == 0 then z[i / 2]
      else Min(s[i], z[i / 2 + 1]))
  }

  /** Reduce, scan the pair minima, fill: the prefix fill applied to the
   *  prefix minima of the pair minima yields the prefix minima of `s`. */
  lemma FillPrefixScans(s: seq<int>)
    requires |s| % 2 == 0
    ensures FillPrefix(s, PrefixMinima(Pairs(s))) == PrefixMinima(s)
  {
    var z := PrefixMinima(Pairs(s));
    var f := FillPrefix(s, z);
    forall i | 0 <= i < |s| ensures f[i] == PrefMin(s, i) {
      assert f[i] == if i == 0 then s[0] else if i % 2 == 1 then z[i / 2] else Min(s[i], z[i / 2 - 1]);
      PrefixFillAt(s, z, i);
    }
    PrefixMinimaFromPointwise(f, s);
  }

  /** Reduce, scan the pair minima, fill: the suffix fill applied to the
   *  suffix minima of the pair minima yields the suffix minima of `s`. */
  lemma FillSuffixScans(s: seq<int>)
    requires |s| % 2 == 0
    ensures FillSuffix(s, SuffixMinima(Pairs(s))) == SuffixMinima(s)
  {
    var z := SuffixMinima(Pairs(s));
    var f := FillSuffix(s, z);
    forall i | 0 <= i < |s| ensures f[i] == SufMin(s, i) {
      assert f[i] == if i == |s| - 1 then s[i] else if i % 2 == 0 then z[i / 2] else Min(s[i], z[i / 2 + 1]);
      SuffixFillAt(s, z, i);
    }
    SuffixMinimaFromPointwise(f, s);
  }
}
