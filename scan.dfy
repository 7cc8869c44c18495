/** The in-place prefix/suffix minima scan by recursive doubling, in its two
 *  variants, and the copy that refills the working buffer from the seed.
 *
 *  `ScanSeq` is the variant whose three loops are OpenMP parallel loops;
 *  each is written as a Dafny `forall` statement, which performs every
 *  iteration at once against the state before the loop, the meaning of a
 *  parallel loop whose iterations write disjoint cells. `ScanPar` has the
 *  same body with plain loops, written as sequential `for` loops in the
 *  order the source runs them. Both meet the same postcondition, so they
 *  leave the same buffer, whatever order the iterations run in. */
module ScanEngine {
  import opened Minima
  import opened Doubling

  /** `init`: copies the first `n` cells of the seed `A` into the working
   *  buffer `B`, leaving the rest of `B` and all of `A` as they were. Its
   *  copy loop is an OpenMP parallel loop, so it is a `forall` too. */
  method Init(A: array<int>, B: array<int>, n: nat)
    requires n <= A.Length && n <= B.Length
    modifies B
    ensures B[..n] == old(A[..n])
    ensures B[n..] == old(B[n..])
    ensures A[..] == old(A[..])
  {
    forall i | 0 <= i < n {
      B[i] := A[i];
    }
  }

  /** The reduce loop of `scan_seq`, an OpenMP parallel loop: for every
   *  even `i` below `length`, `Z[i/2]` gets the minimum of `source[i]` and
   *  `source[i+1]`. `Z` is a fresh buffer of `length / 2` cells. */
  method ReduceParallel(source: array<int>, length: int) returns (Z: array<int>)
    requires 0 <= length <= source.Length && length % 2 == 0
    ensures fresh(Z)
    ensures Z[..] == Pairs(source[..length])
  {
    Z := new int[length / 2];
    forall i | 0 <= i < length && i % 2 == 0 {
      Z[i / 2] := Min(source[i], source[i + 1]);
    }
    forall k | 0 <= k < length / 2
      ensures Z[k] == Min(source[2 * k], source[2 * k + 1])
    {
      assert (2 * k) / 2 == k;
    }
  }

  /** The reduce loop of `scan_par`: the same writes, one even `i` after
   *  another in increasing order. */
  method ReduceInOrder(source: array<int>, length: int) returns (Z: array<int>)
    requires 0 <= length <= source.Length && length % 2 == 0
    ensures fresh(Z)
    ensures Z[..] == Pairs(source[..length])
  {
    Z := new int[length / 2];
    for i := 0 to length
      invariant forall k :: 0 <= k < (i + 1) / 2 ==> Z[k] == Min(source[2 * k], source[2 * k + 1])
    {
      if i % 2 == 0 {
        Z[i / 2] := Min(source[i], source[i + 1]);
      }
    }
  }

  /** The prefix fill of `scan_seq`, an OpenMP parallel loop over
   *  `1 <= i < length`: odd cells take `Z[i/2]`, even cells the minimum of
   *  themselves and `Z[i/2 - 1]`. */
  method FillPrefixParallel(source: array<int>, Z: array<int>, length: int)
    requires source != Z
    requires 2 <= length <= source.Length && length % 2 == 0 && Z.Length == length / 2
    modifies source
    ensures source[..length] == FillPrefix(old(source[..length]), Z[..])
    ensures source[length..] == old(source[length..])
  {
    forall i | 1 <= i < length {
      source[i] := if i % 2 == 1 then Z[i / 2] else Min(source[i], Z[i / 2 - 1]);
    }
  }

  /** The suffix fill of `scan_seq`, an OpenMP parallel loop over
   *  `0 <= i <= length - 2`: even cells take `Z[i/2]`, odd cells the minimum
   *  of themselves and `Z[i/2 + 1]`. */
  method FillSuffixParallel(source: array<int>, Z: array<int>, length: int)
    requires source != Z
    requires 2 <= length <= source.Length && length % 2 == 0 && Z.Length == length / 2
    modifies source
    ensures source[..length] == FillSuffix(old(source[..length]), Z[..])
    ensures source[length..] == old(source[length..])
  {
    forall i | 0 <= i <= length - 2 {
      source[i] := if i % 2 == 0 then Z[i / 2] else Min(source[i], Z[i / 2 + 1]);
    }
  }

  /** The prefix fill of `scan_par`: the same writes, for `i` from 1 upward. */
  method FillPrefixInOrder(source: array<int>, Z: array<int>, length: int)
    requires source != Z
    requires 2 <= length <= source.Length && length % 2 == 0 && Z.Length == length / 2
    modifies source
    ensures source[..length] == FillPrefix(old(source[..length]), Z[..])
    ensures source[length..] == old(source[length..])
  {
    ghost var s := source[..length];
    ghost var f := FillPrefix(s, Z[..]);
    for i := 1 to length
      invariant forall k :: 0 <= k < i ==> source[k] == f[k]
      invariant forall k :: i <= k < length ==> source[k] == s[k]
      invariant forall k :: length <= k < source.Length ==> source[k] == old(source[k])
    {
      if i % 2 == 1 {
        source[i] := Z[i / 2];
      } else {
        source[i] := Min(source[i], Z[i / 2 - 1]);
      }
    }
    assert source[..length] == f;
  }

  /** The suffix fill of `scan_par`: the same writes, for `i` from
   *  `length - 2` downward. */
  method FillSuffixInOrder(source: array<int>, Z: array<int>, length: int)
    requires source != Z
    requires 2 <= length <= source.Length && length % 2 == 0 && Z.Length == length / 2
    modifies source
    ensures source[..length] == FillSuffix(old(source[..length]), Z[..])
    ensures source[length..] == old(source[length..])
  {
    ghost var s := source[..length];
    ghost var f := FillSuffix(s, Z[..]);
    for i := length - 1 downto 0
      invariant forall k :: i <= k < length ==> source[k] == f[k]
      invariant forall k :: 0 <= k < i ==> source[k] == s[k]
      invariant forall k :: length <= k < source.Length ==> source[k] == old(source[k])
    {
      if i % 2 == 0 {
        source[i] := Z[i / 2];
      } else {
        source[i] := Min(source[i], Z[i / 2 + 1]);
      }
    }
    assert source[..length] == f;
  }

  /** The whole buffer after a scan of its first `length` cells with flag
   *  `prefix`: those cells scanned and the rest as they were for a flag of
   *  1 or 0, and the buffer as it was for any other flag. */
  ghost function AfterScan(a: seq<int>, length: int, prefix: int): seq<int>
    requires 0 <= length <= |a|
  {
    if prefix == 0 || prefix == 1 then Scanned(a[..length], prefix) + a[length..] else a
  }

  /** What AfterScan promises cell by cell: the first `length` cells hold
   *  their prefix or suffix minima, every later cell keeps its value, and so
   *  does cell 0 of a prefix scan and cell `length - 1` of a suffix scan. */
  lemma AfterScanCells(a: seq<int>, length: int, prefix: int)
    requires 0 < length <= |a|
    requires prefix == 0 || prefix == 1
    ensures |AfterScan(a, length, prefix)| == |a|
    ensures AfterScan(a, length, prefix)[..length] == Scanned(a[..length], prefix)
    ensures AfterScan(a, length, prefix)[length..] == a[length..]
    ensures prefix == 1 ==> AfterScan(a, length, prefix)[0] == a[0]
    ensures prefix == 0 ==> AfterScan(a, length, prefix)[length - 1] == a[length - 1]
  {
  }

  /** `scan_seq`: with `prefix` 1 replaces `source[0..length-1]` by its
   *  prefix minima, with `prefix` 0 by its suffix minima; cells from
   *  `length` on are untouched. Any other flag ends the program (`exited`)
   *  once `length > 1`, after the reduction and the recursion and before
   *  any cell of `source` is written. The loops are the parallel ones. */
  method ScanSeq(source: array<int>, length: int, prefix: int) returns (exited: bool)
    requires IsPowerOfTwo(length) && length <= source.Length
    modifies source
    ensures exited <==> length > 1 && prefix != 0 && prefix != 1
    ensures source[..] == AfterScan(old(source[..]), length, prefix)
    decreases length
  {
    ghost var whole := source[..];
    ghost var s := source[..length];
    if length == 1 {
      if prefix == 0 || prefix == 1 {
        ScannedEnds(s, prefix);
        assert whole == s + whole[1..];
      }
      return false;
    }
    IndicesInRange(length, 0);
    var Z := ReduceParallel(source, length);
    ghost var pairs := Z[..];
    assert pairs[..length / 2] == pairs && pairs[length / 2..] == [];
    exited := ScanSeq(Z, length / 2, prefix);
    if exited {
      return;
    }
    if prefix == 1 {
      assert Z[..] == PrefixMinima(Pairs(s));
      FillPrefixParallel(source, Z, length);
      FillPrefixScans(s);
      assert source[..] == source[..length] + source[length..];
    } else if prefix == 0 {
      assert Z[..] == SuffixMinima(Pairs(s));
      FillSuffixParallel(source, Z, length);
      FillSuffixScans(s);
      assert source[..] == source[..length] + source[length..];
    } else {
      exited := true;
    }
  }

  /** `scan_par`: the same transform as ScanSeq, with every loop run one
   *  iteration after another in the source's order. */
  method ScanPar(source: array<int>, length: int, prefix: int) returns (exited: bool)
    requires IsPowerOfTwo(length) && length <= source.Length
    modifies source
    ensures exited <==> length > 1 && prefix != 0 && prefix != 1
    ensures source[..] == AfterScan(old(source[..]), length, prefix)
    decreases length
  {
    ghost var whole := source[..];
    ghost var s := source[..length];
    if length == 1 {
      if prefix == 0 || prefix == 1 {
        ScannedEnds(s, prefix);
        assert whole == s + whole[1..];
      }
      return false;
    }
    IndicesInRange(length, 0);
    var Z := ReduceInOrder(source, length);
    ghost var pairs := Z[..];
    assert pairs[..length / 2] == pairs && pairs[length / 2..] == [];
    exited := ScanPar(Z, length / 2, prefix);
    if exited {
      return;
    }
    if prefix == 1 {
      assert Z[..] == PrefixMinima(Pairs(s));
      FillPrefixInOrder(source, Z, length);
      FillPrefixScans(s);
      assert source[..] == source[..length] + source[length..];
    } else if prefix == 0 {
      assert Z[..] == SuffixMinima(Pairs(s));
      FillSuffixInOrder(source, Z, length);
      FillSuffixScans(s);
      assert source[..] == source[..length] + source[length..];
    } else {
      exited := true;
    }
  }

  /** The two variants agree: started on buffers whose first `length` cells
   *  are equal, ScanSeq and ScanPar both end the program or both return,
   *  and leave those cells equal again; buffers equal throughout stay equal
   *  throughout. */
  method VariantsAgree(a: array<int>, b: array<int>, length: int, prefix: int)
      returns (exitedSeq: bool, exitedPar: bool)
    requires a != b
    requires IsPowerOfTwo(length) && length <= a.Length && length <= b.Length
    requires a[..length] == b[..length]
    modifies a, b
    ensures exitedSeq == exitedPar
    ensures a[..length] == b[..length]
    ensures old(a[..]) == old(b[..]) ==> a[..] == b[..]
  {
    exitedSeq := ScanSeq(a, length, prefix);
    exitedPar := ScanPar(b, length, prefix);
  }
}
