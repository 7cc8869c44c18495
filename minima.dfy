/** Minimum of two integers and the prefix/suffix minima of an integer
 *  sequence: the helper `min` of the scan and the specification every
 *  scan is proved against. */
module Minima {

  /** The helper `min`: the smaller of two integers. */
  function Min(a: int, b: int): (r: int)
    ensures r <= a && r <= b
    ensures r == a || r == b
  {
    if a < b then a else b
  }

  /** Prefix minimum at `i`: the minimum of `s[0..i]`, both ends included,
   *  accumulated from the left. */
  ghost function PrefMin(s: seq<int>, i: int): int
    requires 0 <= i < |s|
    decreases i
  {
    if i == 0 then s[0] else Min(PrefMin(s, i - 1), s[i])
  }

  /** Suffix minimum at `i`: the minimum of `s[i..|s|-1]`, both ends
   *  included, accumulated from the right. */
  ghost function SufMin(s: seq<int>, i: int): int
    requires 0 <= i < |s|
    decreases |s| - i
  {
    if i == |s| - 1 then s[i] else Min(s[i], SufMin(s, i + 1))
  }

  /** The prefix minimum at `i` is one of `s[0..i]` and undercuts none of
   *  them. */
  lemma {:induction false} PrefMinIsMinimum(s: seq<int>, i: int)
    requires 0 <= i < |s|
    ensures exists k :: 0 <= k <= i && PrefMin(s, i) == s[k]
    ensures forall k :: 0 <= k <= i ==> PrefMin(s, i) <= s[k]
    decreases i
  {
    if i == 0 {
      assert PrefMin(s, 0) == s[0];
    } else {
      PrefMinIsMinimum(s, i - 1);
      var w :| 0 <= w <= i - 1 && PrefMin(s, i - 1) == s[w];
      if PrefMin(s, i) == s[i] {
        assert 0 <= i <= i && PrefMin(s, i) == s[i];
      } else {
        assert 0 <= w <= i && PrefMin(s, i) == s[w];
      }
    }
  }

  /** The suffix minimum at `i` is one of `s[i..|s|-1]` and undercuts none
   *  of them. */
  lemma {:induction false} SufMinIsMinimum(s: seq<int>, i: int)
    requires 0 <= i < |s|
    ensures exists k :: i <= k < |s| && SufMin(s, i) == s[k]
    ensures forall k :: i <= k < |s| ==> SufMin(s, i) <= s[k]
    decreases |s| - i
  {
    if i == |s| - 1 {
      assert SufMin(s, i) == s[i];
    } else {
      SufMinIsMinimum(s, i + 1);
      var w :| i + 1 <= w < |s| && SufMin(s, i + 1) == s[w];
      if SufMin(s, i) == s[i] {
        assert i <= i < |s| && SufMin(s, i) == s[i];
      } else {
        assert i <= w < |s| && SufMin(s, i) == s[w];
      }
    }
  }

  /** A value is the prefix minimum at `i` exactly when it is one of
   *  `s[0..i]` and no element of `s[0..i]` is smaller. */
  lemma PrefMinCharacterized(s: seq<int>, i: int, m: int)
    requires 0 <= i < |s|
    ensures m == PrefMin(s, i) <==>
      (exists k :: 0 <= k <= i && m == s[k]) && (forall k :: 0 <= k <= i ==> m <= s[k])
  {
    PrefMinIsMinimum(s, i);
    if (exists k :: 0 <= k <= i && m == s[k]) && (forall k :: 0 <= k <= i ==> m <= s[k]) {
      var k :| 0 <= k <= i && m == s[k];
      var w :| 0 <= w <= i && PrefMin(s, i) == s[w];
      assert m <= s[w] && PrefMin(s, i) <= s[k];
    }
  }

  /** A value is the suffix minimum at `i` exactly when it is one of
   *  `s[i..|s|-1]` and no element of `s[i..|s|-1]` is smaller. */
  lemma SufMinCharacterized(s: seq<int>, i: int, m: int)
    requires 0 <= i < |s|
    ensures m == SufMin(s, i) <==>
      (exists k :: i <= k < |s| && m == s[k]) && (forall k :: i <= k < |s| ==> m <= s[k])
  {
    SufMinIsMinimum(s, i);
    if (exists k :: i <= k < |s| && m == s[k]) && (forall k :: i <= k < |s| ==> m <= s[k]) {
      var k :| i <= k < |s| && m == s[k];
      var w :| i <= w < |s| && SufMin(s, i) == s[w];
      assert m <= s[w] && SufMin(s, i) <= s[k];
    }
  }

  /** The prefix minima of `s`, element by element. */
  ghost function PrefixMinima(s: seq<int>): seq<int>
  {
    seq(|s|, i requires 0 <= i < |s| => PrefMin(s, i))
  }

  /** The suffix minima of `s`, element by element. */
  ghost function SuffixMinima(s: seq<int>): seq<int>
  {
    seq(|s|, i requires 0 <= i < |s| => SufMin(s, i))
  }

  /** What a scan with direction flag `prefix` (1 for prefix minima, 0 for
   *  suffix minima) leaves in a buffer that held `s`. */
  ghost function Scanned(s: seq<int>, prefix: int): seq<int>
    requires prefix == 0 || prefix == 1
  {
    if prefix == 1 then PrefixMinima(s) else SuffixMinima(s)
  }

  /** A sequence that holds the prefix minimum of `s` at every index is the
   *  prefix scan of `s`. */
  lemma PrefixMinimaFromPointwise(t: seq<int>, s: seq<int>)
    requires |t| == |s|
    requires forall i :: 0 <= i < |s| ==> t[i] == PrefMin(s, i)
    ensures t == PrefixMinima(s)
  {
  }

  /** A sequence that holds the suffix minimum of `s` at every index is the
   *  suffix scan of `s`. */
  lemma SuffixMinimaFromPointwise(t: seq<int>, s: seq<int>)
    requires |t| == |s|
    requires forall i :: 0 <= i < |s| ==> t[i] == SufMin(s, i)
    ensures t == SuffixMinima(s)
  {
  }

  /** The scan keeps the first element in place for prefix minima and the
   *  last one for suffix minima, and a one-element buffer is its own scan
   *  in either direction. */
  lemma ScannedEnds(s: seq<int>, prefix: int)
    requires |s| > 0
    requires prefix == 0 || prefix == 1
    ensures |Scanned(s, prefix)| == |s|
    ensures prefix == 1 ==> Scanned(s, prefix)[0] == s[0]
    ensures prefix == 0 ==> Scanned(s, prefix)[|s| - 1] == s[|s| - 1]
    ensures |s| == 1 ==> Scanned(s, prefix) == s
  {
  }

  /** Prefix minima never increase from left to right; suffix minima never
   *  decrease. */
  lemma {:induction false} ScannedMonotone(s: seq<int>, prefix: int, i: int, j: int)
    requires prefix == 0 || prefix == 1
    requires 0 <= i <= j < |s|
    ensures prefix == 1 ==> Scanned(s, prefix)[j] <= Scanned(s, prefix)[i]
    ensures prefix == 0 ==> Scanned(s, prefix)[i] <= Scanned(s, prefix)[j]
    decreases j - i
  {
    if i < j {
      ScannedMonotone(s, prefix, i + 1, j);
      if prefix == 1 {
        assert PrefMin(s, i + 1) <= PrefMin(s, i);
      } else {
        assert SufMin(s, i) <= SufMin(s, i + 1);
      }
    }
  }

  /** The prefix minima of the prefix minima of `s` are those of `s`. */
  lemma {:induction false} PrefMinOfPrefixMinima(s: seq<int>, i: int)
    requires 0 <= i < |s|
    ensures PrefMin(PrefixMinima(s), i) == PrefMin(s, i)
    decreases i
  {
    if i > 0 {
      PrefMinOfPrefixMinima(s, i - 1);
    }
  }

  /** The suffix minima of the suffix minima of `s` are those of `s`. */
  lemma {:induction false} SufMinOfSuffixMinima(s: seq<int>, i: int)
    requires 0 <= i < |s|
    ensures SufMin(SuffixMinima(s), i) == SufMin(s, i)
    decreases |s| - i
  {
    if i < |s| - 1 {
      SufMinOfSuffixMinima(s, i + 1);
    }
  }

  /** Scanning a scanned buffer again in the same direction changes nothing. */
  lemma ScannedIdempotent(s: seq<int>, prefix: int)
    requires prefix == 0 || prefix == 1
    ensures Scanned(Scanned(s, prefix), prefix) == Scanned(s, prefix)
  {
    forall i | 0 <= i < |s|
      ensures Scanned(Scanned(s, prefix), prefix)[i] == Scanned(s, prefix)[i]
    {
      if prefix == 1 {
        PrefMinOfPrefixMinima(s, i);
      } else {
        SufMinOfSuffixMinima(s, i);
      }
    }
  }

  /** The worked example [5,3,8,1,9,2,7,4], prefix direction. */
  lemma PrefixExample()
    ensures Scanned([5, 3, 8, 1, 9, 2, 7, 4], 1) == [5, 3, 3, 1, 1, 1, 1, 1]
  {
    var s := [5, 3, 8, 1, 9, 2, 7, 4];
    PrefixMinimaFromPointwise([5, 3, 3, 1, 1, 1, 1, 1], s);
  }

  /** The worked example [5,3,8,1,9,2,7,4], suffix direction. */
  lemma SuffixExample()
    ensures Scanned([5, 3, 8, 1, 9, 2, 7, 4], 0) == [1, 1, 1, 1, 2, 2, 4, 4]
  {
  }

  /** A buffer whose elements are all equal is its own scan in both
   *  directions. */
  lemma ScannedConstant(s: seq<int>, prefix: int)
    requires prefix == 0 || prefix == 1
    requires forall k :: 0 <= k < |s| ==> s[k] == s[0]
    ensures Scanned(s, prefix) == s
  {
    forall i | 0 <= i < |s| ensures Scanned(s, prefix)[i] == s[i] {
      if prefix == 1 {
        PrefMinIsMinimum(s, i);
      } else {
        SufMinIsMinimum(s, i);
      }
    }
  }
}
