/**
  `SyncLoadCenter`: the counts of all ranks, read from their status files, merged and held at the 32-bit maximum.
 */
module CenterSync {
  import Q = QuotaRounds

  const MAX_SIZE: int := 0x7fff_ffff

  predicate IsInt32(n: int) {
    -0x8000_0000 <= n <= MAX_SIZE
  }

  ghost predicate Sizes(parts: seq<int>) {
    forall i :: 0 <= i < |parts| ==> IsInt32(parts[i])
  }

  ghost predicate NoneNegative(parts: seq<int>) {
    forall i :: 0 <= i < |parts| ==> parts[i] >= 0
  }

  /** The sum, unless it does not fit or some part is no count at all: then the maximum. */
  ghost function MergedCount(parts: seq<int>): int {
    if NoneNegative(parts) && Q.Sum(parts) <= MAX_SIZE then Q.Sum(parts) else MAX_SIZE
  }

  lemma {:induction false} SumNonNegative(parts: seq<int>)
    requires NoneNegative(parts)
    ensures Q.Sum(parts) >= 0
  {
    if parts != [] {
      SumNonNegative(parts[..|parts| - 1]);
    }
  }

  /** One more status file. Once at the maximum the count never comes down again. */
  lemma MergeOne(parts: seq<int>, n: nat)
    requires Sizes(parts) && n < |parts|
    ensures 0 <= MergedCount(parts[..n]) <= MAX_SIZE
    ensures MergedCount(parts[..n + 1]) ==
      if parts[n] >= 0 && MergedCount(parts[..n]) <= MAX_SIZE - parts[n] then MergedCount(parts[..n]) + parts[n]
        else MAX_SIZE
  {
    var before, after := parts[..n], parts[..n + 1];
    assert after[..n] == before && after[n] == parts[n];
    if NoneNegative(before) {
      SumNonNegative(before);
    }
    assert NoneNegative(after) <==> NoneNegative(before) && parts[n] >= 0;
  }

  /** The loop over the parts, for one cluster. No intermediate value leaves the 32-bit range. */
  method MergeCounts(parts: seq<int>) returns (count: int)
    requires Sizes(parts)
    ensures count == MergedCount(parts) && 0 <= count <= MAX_SIZE
  {
    count := 0;
    for part := 0 to |parts|
      invariant 0 <= count <= MAX_SIZE && count == MergedCount(parts[..part])
    {
      MergeOne(parts, part);
      var partsize := parts[part];
      if partsize >= 0 && count <= MAX_SIZE - partsize {
        count := count + partsize;
      } else {
        count := MAX_SIZE;
      }
    }
    assert parts[..|parts|] == parts;
  }

  /** The order in which the files are read does not matter. */
  lemma MergeAnyOrder(parts: seq<int>, other: seq<int>)
    requires Sizes(parts) && multiset(parts) == multiset(other)
    ensures MergedCount(parts) == MergedCount(other)
  {
    SumOfMultiset(parts, other);
    forall i | 0 <= i < |other|
      ensures other[i] in parts
    {
      assert other[i] in multiset(parts);
    }
    forall i | 0 <= i < |parts|
      ensures parts[i] in other
    {
      assert parts[i] in multiset(other);
    }
  }

  function Without(s: seq<int>, j: nat): seq<int>
    requires j < |s|
  {
    s[..j] + s[j + 1..]
  }

  lemma WithoutMultiset(s: seq<int>, j: nat)
    requires j < |s|
    ensures multiset(Without(s, j)) == multiset(s) - multiset{s[j]}
  {
    assert s == s[..j] + [s[j]] + s[j + 1..];
  }

  lemma {:induction false} SumOfMultiset(a: seq<int>, b: seq<int>)
    requires multiset(a) == multiset(b)
    ensures Q.Sum(a) == Q.Sum(b)
    decreases |a|
  {
    assert |a| == |multiset(a)| && |b| == |multiset(b)|;
    if a != [] {
      var n := |a| - 1;
      assert a[n] in multiset(b);
      var j :| 0 <= j < |b| && b[j] == a[n];
      WithoutMultiset(a, n);
      WithoutMultiset(b, j);
      SumWithout(a, n);
      SumWithout(b, j);
      SumOfMultiset(Without(a, n), Without(b, j));
    }
  }

  lemma {:induction false} SumWithout(s: seq<int>, j: nat)
    requires j < |s|
    ensures Q.Sum(s) == Q.Sum(Without(s, j)) + s[j]
    decreases |s|
  {
    var n := |s| - 1;
    if j == n {
      assert Without(s, j) == s[..n];
    } else {
      SumWithout(s[..n], j);
      assert Without(s, j)[..n - 1] == Without(s[..n], j);
    }
  }
}
