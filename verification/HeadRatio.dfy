/** The heads a pair of thresholds selects, and how far they are from the target ratio. */
module HeadRatio {
  import opened Sorting
  import opened BKTree
  import opened HeadDynamic

  predicate IntLe(a: int, b: int) {
    a <= b
  }

  /** `std::unique` on a sorted sequence. */
  function Unique(s: seq<int>): seq<int> {
    if |s| <= 1 then s
    else if s[0] == s[1] then Unique(s[1..]) else [s[0]] + Unique(s[1..])
  }

  ghost predicate Increasing(s: seq<int>) {
    forall i, j :: 0 <= i < j < |s| ==> s[i] < s[j]
  }

  lemma {:induction false} UniqueFacts(s: seq<int>)
    requires Sorted(s, IntLe)
    ensures Increasing(Unique(s))
    ensures forall x :: x in Unique(s) <==> x in s
    ensures s != [] ==> Unique(s) != [] && Unique(s)[0] == s[0]
  {
    if |s| > 1 {
      UniqueFacts(s[1..]);
      assert s == [s[0]] + s[1..];
      assert IntLe(s[0], s[1]);
    }
  }

  /** The selection for a pair of thresholds: sorted, without repetitions. */
  function Heads(tree: Tree, t: Thresholds): seq<int>
    requires WellFormed(tree) && t.factor > 0
  {
    Unique(SortBy(Selection(tree, 0, t), IntLe))
  }

  /** Centers below the root are vectors. */
  ghost predicate CentersInRange(tree: Tree, par: seq<int>, vectorCount: nat) {
    Parents(tree, par) && forall n :: 0 < n < |tree| && Under(par, 0, n) ==> 0 <= tree[n].centerid < vectorCount
  }

  ghost predicate AllIn(s: seq<int>, vectorCount: nat) {
    forall i :: 0 <= i < |s| ==> 0 <= s[i] < vectorCount
  }

  lemma PushedInRange(tree: Tree, par: seq<int>, vectorCount: nat, id: nat, t: Thresholds)
    requires CentersInRange(tree, par, vectorCount) && id < |tree| && t.factor > 0 && Under(par, 0, id)
    ensures AllIn(Pushed(tree, id, t), vectorCount)
  {
    SortedChildrenNodes(tree, id, t.select);
    var s := SortedChildren(tree, id, t.select);
    forall i | 0 <= i < |s|
      ensures 0 <= CenterOf(tree, s[i]) < vectorCount
    {
      var c := s[i].node;
      assert IsChild(tree, id, c) && c < |tree| && par[c] == id;
      assert Under(par, 0, c);
    }
  }

  lemma {:induction false} SelectionInRange(tree: Tree, par: seq<int>, vectorCount: nat, id: nat, t: Thresholds)
    requires CentersInRange(tree, par, vectorCount) && id < |tree| && t.factor > 0 && Under(par, 0, id)
    ensures AllIn(Selection(tree, id, t), vectorCount)
    decreases |tree| - id, 1, 0
  {
    PushedInRange(tree, par, vectorCount, id, t);
    SelectionSplit(tree, id, t);
    if !IsLeaf(tree, id) {
      forall c | tree[id].childStart <= c < tree[id].childEnd
        ensures Under(par, 0, c)
      {
        assert IsChild(tree, id, c);
      }
      SelectionInInRange(tree, par, vectorCount, id, tree[id].childStart, tree[id].childEnd, t);
      assert SelectionBelow(tree, id, t) == SelectionIn(tree, tree[id].childStart, tree[id].childEnd, t);
    } else {
      assert SelectionBelow(tree, id, t) == [];
    }
  }

  lemma {:induction false} SelectionInInRange(tree: Tree, par: seq<int>, vectorCount: nat, n: nat, lo: nat, hi: nat,
      t: Thresholds)
    requires CentersInRange(tree, par, vectorCount) && n < lo <= hi <= |tree| && t.factor > 0
    requires forall c :: lo <= c < hi ==> Under(par, 0, c)
    ensures AllIn(SelectionIn(tree, lo, hi, t), vectorCount)
    decreases |tree| - lo, 2, hi - lo
  {
    if lo < hi {
      SelectionInInRange(tree, par, vectorCount, n, lo, hi - 1, t);
      SelectionInRange(tree, par, vectorCount, hi - 1, t);
      MoreSelected(tree, lo, hi - 1, t);
    }
  }

  lemma {:induction false} IncreasingBound(s: seq<int>, n: nat)
    requires Increasing(s) && AllIn(s, n)
    ensures |s| <= n
  {
    if s != [] {
      var k := |s| - 1;
      assert s[k] < n;
      forall i | 0 <= i < k
        ensures 0 <= s[..k][i] < s[k]
      {
      }
      IncreasingBound(s[..k], s[k]);
    }
  }

  /** The result holds each selected vector once, in increasing order. */
  lemma HeadsFacts(tree: Tree, par: seq<int>, vectorCount: nat, t: Thresholds)
    requires CentersInRange(tree, par, vectorCount) && t.factor > 0
    ensures Increasing(Heads(tree, t)) && AllIn(Heads(tree, t), vectorCount)
    ensures forall x :: x in Heads(tree, t) <==> x in Selection(tree, 0, t)
    ensures |Heads(tree, t)| <= vectorCount
  {
    var s := SortBy(Selection(tree, 0, t), IntLe);
    SortByCorrect(Selection(tree, 0, t), IntLe);
    UniqueFacts(s);
    assert Under(par, 0, 0);
    SelectionInRange(tree, par, vectorCount, 0, t);
    forall x
      ensures x in Heads(tree, t) <==> x in Selection(tree, 0, t)
    {
      assert x in s <==> x in multiset(s);
    }
    forall i | 0 <= i < |Heads(tree, t)|
      ensures 0 <= Heads(tree, t)[i] < vectorCount
    {
      assert Heads(tree, t)[i] in Selection(tree, 0, t);
    }
    IncreasingBound(Heads(tree, t), vectorCount);
  }

  // ----- the target ratio -----

  function Abs(x: real): real {
    if x < 0.0 then -x else x
  }

  /** How far the selection is from the target ratio. */
  function Diff(tree: Tree, vectorCount: nat, ratio: real, t: Thresholds): real
    requires WellFormed(tree) && t.factor > 0 && vectorCount > 0
  {
    |Heads(tree, t)| as real / vectorCount as real - ratio
  }

  lemma DiffBound(tree: Tree, par: seq<int>, vectorCount: nat, ratio: real, t: Thresholds)
    requires CentersInRange(tree, par, vectorCount) && t.factor > 0 && vectorCount > 0 && 0.0 <= ratio < 1.0
    ensures Abs(Diff(tree, vectorCount, ratio, t)) < 100.0
  {
    HeadsFacts(tree, par, vectorCount, t);
    var h, v := |Heads(tree, t)| as real, vectorCount as real;
    Fraction(h, v);
  }

  lemma Fraction(h: real, v: real)
    requires 0.0 <= h <= v && v > 0.0
    ensures 0.0 <= h / v <= 1.0
  {
    var q := h / v;
    assert q * v == h;
    if q < 0.0 {
      NegativeProduct(q, v);
    } else if q > 1.0 {
      NegativeProduct(1.0 - q, v);
    }
  }

  lemma NegativeProduct(a: real, v: real)
    requires a < 0.0 && v > 0.0
    ensures a * v < 0.0
  {
  }

  /** `std::round`. */
  function Round(x: real): int {
    if x >= 0.0 then (x + 0.5).Floor else -((-x + 0.5).Floor)
  }

  /** It rounds to the nearest number, halves away from zero. */
  lemma RoundLaw(x: real)
    ensures x >= 0.0 ==> Round(x) as real - 0.5 <= x < Round(x) as real + 0.5
    ensures x < 0.0 ==> Round(x) as real - 0.5 < x <= Round(x) as real + 0.5
  {
    if x >= 0.0 {
      var f := (x + 0.5).Floor;
      assert f as real <= x + 0.5 < f as real + 1.0;
    } else {
      var f := (-x + 0.5).Floor;
      assert f as real <= -x + 0.5 < f as real + 1.0;
    }
  }

  lemma RatioBelowOne(ratio: real, vectorCount: nat)
    requires ratio >= 0.0 && Round(ratio * vectorCount as real) < vectorCount
    ensures vectorCount > 0 && ratio < 1.0
  {
    ProductGrows(ratio, vectorCount as real);
  }

  lemma ProductGrows(r: real, v: real)
    requires v >= 0.0
    ensures r >= 1.0 ==> r * v >= v
  {
  }
}
