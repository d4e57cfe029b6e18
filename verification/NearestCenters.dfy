/** Which center a row asks for in which column, without any sorting. */
module NearestCenters {
  import opened Options
  import opened Sorting
  import opened HardAssign
  import Sets

  /** The centers in front of center `k`: nearer, or as near with a smaller number. */
  ghost function InFront(d: seq<real>, k: nat): set<int>
    requires k < |d|
  {
    set j | 0 <= j < |d| && (d[j] < d[k] || (d[j] == d[k] && j < k))
  }

  /** Center `k` has `c` others in front of it and is not too far behind the first one. */
  ghost predicate Asks(d: seq<real>, c: nat, closure: real, k: int) {
    && 0 <= k < |d| && |InFront(d, k)| == c
    && forall j :: 0 <= j < |d| && InFront(d, j) == {} ==> d[k] <= d[j] * closure
  }

  /** The centers at the first `p` places. */
  ghost function FirstNodes(d: seq<real>, p: nat): set<int>
    requires p <= |d|
  {
    set q | 0 <= q < p :: Ranking(d)[q].node
  }

  lemma {:induction false} FirstNodesSize(d: seq<real>, p: nat)
    requires p <= |d|
    ensures |FirstNodes(d, p)| == p
    decreases p
  {
    if p > 0 {
      FirstNodesSize(d, p - 1);
      RankingFacts(d);
      Sets.AddedSize(FirstNodes(d, p - 1), FirstNodes(d, p), Ranking(d)[p - 1].node);
    }
  }

  /** Every center has a place. */
  lemma PlaceOf(d: seq<real>, k: nat) returns (p: nat)
    requires k < |d|
    ensures p < |d| && Ranking(d)[p] == NodeDistPair(k, d[k])
  {
    SortByCorrect(CenterPairs(d), PairLe);
    assert CenterPairs(d)[k] in multiset(Ranking(d));
    p :| 0 <= p < |d| && Ranking(d)[p] == CenterPairs(d)[k];
  }

  /** The place of a center is the number of centers in front of it. */
  lemma PlaceIsCount(d: seq<real>, p: nat)
    requires p < |d|
    ensures 0 <= Ranking(d)[p].node < |d| && |InFront(d, Ranking(d)[p].node)| == p
  {
    RankingFacts(d);
    var r, k := Ranking(d), Ranking(d)[p].node;
    forall j: int
      ensures j in InFront(d, k) <==> j in FirstNodes(d, p)
    {
      if 0 <= j < |d| {
        var q := PlaceOf(d, j);
        if q < p {
          assert PairLe(r[q], r[p]) && r[q].node != r[p].node;
        } else if p < q {
          assert PairLe(r[p], r[q]) && r[p].node != r[q].node;
        }
      }
    }
    Sets.SameSize(InFront(d, k), FirstNodes(d, p));
    FirstNodesSize(d, p);
  }

  lemma FirstIffNone(d: seq<real>, j: nat)
    requires j < |d|
    ensures InFront(d, j) == {} <==> j == Ranking(d)[0].node
  {
    var p := PlaceOf(d, j);
    PlaceIsCount(d, p);
    PlaceIsCount(d, 0);
    if InFront(d, j) == {} {
      assert p == 0;
    }
  }

  /** A row's candidate in column `c` is the center with `c` centers in front of it, if that passes the closure test. */
  lemma CandidateIff(d: seq<real>, c: nat, closure: real, p: NodeDistPair)
    requires c < |d|
    ensures Candidate(d, c, closure) == Some(p) <==> Asks(d, c, closure, p.node) && p.distance == d[p.node]
  {
    RankingFacts(d);
    PlaceIsCount(d, c);
    var r := Ranking(d);
    FirstIffNone(d, r[0].node);
    if 0 <= p.node < |d| {
      var q := PlaceOf(d, p.node);
      PlaceIsCount(d, q);
      forall j | 0 <= j < |d|
        ensures InFront(d, j) == {} <==> j == r[0].node
      {
        FirstIffNone(d, j);
      }
    }
  }

  /** No row asks for two centers in one column. */
  lemma AsksOnce(d: seq<real>, c: nat, closure: real, k: int, l: int)
    requires Asks(d, c, closure, k) && Asks(d, c, closure, l)
    ensures k == l
  {
    var p := PlaceOf(d, k);
    var q := PlaceOf(d, l);
    PlaceIsCount(d, p);
    PlaceIsCount(d, q);
  }

  /** Nobody is nearer than a center with none in front of it. */
  lemma NearestFirst(d: seq<real>, k: nat, j: nat)
    requires k < |d| && j < |d| && InFront(d, k) == {}
    ensures d[k] <= d[j]
  {
    assert j !in InFront(d, k);
  }

  /** With a closure factor that is not negative, the test is against every center. */
  lemma ClosureTest(d: seq<real>, c: nat, closure: real, k: nat)
    requires closure >= 0.0 && k < |d|
    ensures Asks(d, c, closure, k) <==>
      |InFront(d, k)| == c && forall j :: 0 <= j < |d| ==> d[k] <= d[j] * closure
  {
    var first := Ranking(d)[0].node;
    PlaceIsCount(d, 0);
    if |InFront(d, k)| == c && d[k] <= d[first] * closure {
      forall j | 0 <= j < |d|
        ensures d[k] <= d[j] * closure
      {
        NearestFirst(d, first, j);
        ScaleMono(d[first], d[j], closure);
      }
    }
  }

  lemma ScaleMono(a: real, b: real, c: real)
    requires a <= b && c >= 0.0
    ensures a * c <= b * c
  {
  }

  /** In the first column every row asks for its nearest center. */
  lemma NearestAsked(d: seq<real>, closure: real) returns (k: nat)
    requires |d| > 0 && closure >= 1.0 && forall j :: 0 <= j < |d| ==> d[j] >= 0.0
    ensures k < |d| && Asks(d, 0, closure, k) && forall j :: 0 <= j < |d| ==> d[k] <= d[j]
  {
    PlaceIsCount(d, 0);
    k := Ranking(d)[0].node;
    assert InFront(d, k) == {};
    forall j | 0 <= j < |d|
      ensures d[k] <= d[j] && (InFront(d, j) == {} ==> d[k] <= d[j] * closure)
    {
      assert j !in InFront(d, k);
      ScaleMono(1.0, closure, d[j]);
    }
  }
}
