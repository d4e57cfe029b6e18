/** Halving the split thresholds loses nothing. */
module HeadBest {
  import opened BKTree
  import opened HeadDynamic
  import opened HeadGroups
  import opened HeadSegments
  import opened HeadRatio
  import opened HeadTries
  import Sets

  ghost function Elements(s: seq<int>): set<int> {
    set x | x in s
  }

  lemma {:induction false} ElementsSize(s: seq<int>)
    requires Increasing(s)
    ensures |Elements(s)| == |s|
  {
    if s != [] {
      var n := |s| - 1;
      ElementsSize(s[..n]);
      assert forall i :: 0 <= i < n ==> s[..n][i] < s[n];
      forall x: int
        ensures x in Elements(s) <==> x in Elements(s[..n]) || x == s[n]
      {
        assert s == s[..n] + [s[n]];
      }
      Sets.AddedSize(Elements(s[..n]), Elements(s), s[n]);
    }
  }

  /** A larger split threshold selects no vector that a smaller one does not. */
  lemma SplitAntitone(tree: Tree, par: seq<int>, t: Thresholds, u: Thresholds, v: int)
    requires Parents(tree, par) && t.factor > 0 && u == t.(split := u.split) && t.split <= u.split
    requires v in Selection(tree, 0, u)
    ensures v in Selection(tree, 0, t)
  {
    SelectionIff(tree, par, 0, u, v);
    SelectionIff(tree, par, 0, t, v);
    var g :| Closes(tree, par, 0, u.select, g) && Contributes(tree, g, u, v);
    if g.size > u.split && TakenChild(tree, g.node, u, v) {
      assert TakenChild(tree, g.node, t, v);
    }
    assert Closes(tree, par, 0, t.select, g) && Contributes(tree, g, t, v);
  }

  lemma FewerHeads(tree: Tree, par: seq<int>, vectorCount: nat, t: Thresholds, u: Thresholds)
    requires CentersInRange(tree, par, vectorCount) && t.factor > 0
    requires u == t.(split := u.split) && t.split <= u.split
    ensures |Heads(tree, u)| <= |Heads(tree, t)|
  {
    HeadsFacts(tree, par, vectorCount, t);
    HeadsFacts(tree, par, vectorCount, u);
    ElementsSize(Heads(tree, t));
    ElementsSize(Heads(tree, u));
    forall v | v in Elements(Heads(tree, u))
      ensures v in Elements(Heads(tree, t))
    {
      SplitAntitone(tree, par, t, u, v);
    }
    Sets.SubsetSize(Elements(Heads(tree, u)), Elements(Heads(tree, t)));
  }

  lemma SmallerQuotient(a: nat, b: nat, v: nat)
    requires a <= b && v > 0
    ensures a as real / v as real <= b as real / v as real
  {
    QuotientGrows(a as real, b as real, v as real);
  }

  ghost predicate Measured(x: Problem, par: seq<int>) {
    x.Valid() && CentersInRange(x.tree, par, x.vectorCount)
  }

  /** Smaller split thresholds than one that selects too many are no better; nor are larger ones than another. */
  lemma WorseSide(x: Problem, par: seq<int>, select: int, mid: int, s: int)
    requires Measured(x, par) && if x.TooMany(x.Pair(select, mid)) then s <= mid else mid <= s
    ensures x.Deviation(x.Pair(select, mid)) <= x.Deviation(x.Pair(select, s))
  {
    var t, u := x.Pair(select, mid), x.Pair(select, s);
    if s <= mid {
      FewerHeads(x.tree, par, x.vectorCount, u, t);
      SmallerQuotient(|Heads(x.tree, t)|, |Heads(x.tree, u)|, x.vectorCount);
    }
    if mid <= s {
      FewerHeads(x.tree, par, x.vectorCount, t, u);
      SmallerQuotient(|Heads(x.tree, u)|, |Heads(x.tree, t)|, x.vectorCount);
    }
  }

  /** Whatever split threshold lies in the interval, the halving meets one that is at least as good. */
  lemma {:induction false} HalvingIsBest(x: Problem, par: seq<int>, select: int, l: int, r: int, s: int)
    returns (t: Thresholds)
    requires Measured(x, par) && l < s < r
    ensures t in x.SplitsTried(select, l, r) && x.Deviation(t) <= x.Deviation(x.Pair(select, s))
    decreases r - l
  {
    var mid := (l + r) / 2;
    t := x.Pair(select, mid);
    if x.TooMany(t) && mid < s {
      t := HalvingIsBest(x, par, select, mid, r, s);
    } else if !x.TooMany(t) && s < mid {
      t := HalvingIsBest(x, par, select, l, mid, s);
    } else {
      WorseSide(x, par, select, mid, s);
    }
  }

  /** A set of pairs and a larger one whose every pair is matched by a pair of the smaller. */
  ghost predicate Matches(x: Problem, tried: set<Thresholds>, pairs: set<Thresholds>)
    requires x.Valid()
  {
    && tried <= pairs && (forall t :: t in pairs ==> t.factor == x.opts.factor)
    && forall u :: u in pairs ==> Matched(x, tried, u)
  }

  ghost predicate Matched(x: Problem, tried: set<Thresholds>, u: Thresholds)
    requires x.Valid()
  {
    exists t :: t in tried && x.Deviation(t) <= x.Deviation(u)
  }

  /** The best of the smaller set is the best of the larger. */
  lemma BestOfAll(x: Problem, tried: set<Thresholds>, pairs: set<Thresholds>, selected: seq<int>)
    requires x.Valid() && Matches(x, tried, pairs) && x.Outcome(tried, selected)
    ensures x.Outcome(pairs, selected)
  {
    var best, minDiff :| x.IsBest(tried, best, minDiff) && selected == Heads(x.tree, best);
    forall u | u in pairs
      ensures tried != {} && minDiff <= x.Deviation(u)
    {
      assert Matched(x, tried, u);
    }
    assert tried == {} ==> pairs == {};
    assert x.IsBest(pairs, best, minDiff);
  }

  /** Every pair of a select threshold from 2 to `n` and a split threshold between the factor and the options' own. */
  ghost function OldPairs(x: Problem, n: int): set<Thresholds> {
    set a, b | 2 <= a <= n && x.opts.factor < b < x.opts.split :: x.Pair(a, b)
  }

  lemma OldIn(x: Problem, n: int, t: Thresholds)
    requires x.Valid() && t in x.OldTried(n)
    ensures t in OldPairs(x, n)
  {
    x.OldTriedIff(n, t);
    x.SplitsAre(t.select, x.opts.factor, x.opts.split);
    assert t == x.Pair(t.select, t.split);
  }

  lemma OldMatched(x: Problem, par: seq<int>, n: int, u: Thresholds)
    requires Measured(x, par) && u in OldPairs(x, n)
    ensures Matched(x, x.OldTried(n), u)
  {
    var t := HalvingIsBest(x, par, u.select, x.opts.factor, x.opts.split, u.split);
    x.SplitsSelect(u.select, x.opts.factor, x.opts.split, t);
    x.OldTriedIff(n, t);
    assert u == x.Pair(u.select, u.split);
  }

  lemma OldMatches(x: Problem, par: seq<int>, n: int)
    requires Measured(x, par)
    ensures Matches(x, x.OldTried(n), OldPairs(x, n))
  {
    forall t | t in x.OldTried(n)
      ensures t in OldPairs(x, n)
    {
      OldIn(x, n, t);
    }
    forall u | u in OldPairs(x, n)
      ensures Matched(x, x.OldTried(n), u)
    {
      OldMatched(x, par, n, u);
    }
  }

  /** Every pair of one of the select thresholds and a split threshold between the factor and the upper end. */
  ghost function PairsOf(x: Problem, selects: set<int>): set<Thresholds> {
    set a, b | a in selects && x.opts.factor < b < x.UpperSplit(a) :: x.Pair(a, b)
  }

  lemma TriedIn(x: Problem, selects: set<int>, t: Thresholds)
    requires x.Valid() && t in x.Tried(selects)
    ensures t in PairsOf(x, selects)
  {
    x.TriedIff(selects, t);
    x.SplitsAre(t.select, x.opts.factor, x.UpperSplit(t.select));
    assert t == x.Pair(t.select, t.split);
  }

  lemma TriedMatched(x: Problem, par: seq<int>, selects: set<int>, u: Thresholds)
    requires Measured(x, par) && u in PairsOf(x, selects)
    ensures Matched(x, x.Tried(selects), u)
  {
    var t := HalvingIsBest(x, par, u.select, x.opts.factor, x.UpperSplit(u.select), u.split);
    x.SplitsSelect(u.select, x.opts.factor, x.UpperSplit(u.select), t);
    x.TriedIff(selects, t);
    assert u == x.Pair(u.select, u.split);
  }

  lemma TriedMatches(x: Problem, par: seq<int>, selects: set<int>)
    requires Measured(x, par)
    ensures Matches(x, x.Tried(selects), PairsOf(x, selects))
  {
    forall t | t in x.Tried(selects)
      ensures t in PairsOf(x, selects)
    {
      TriedIn(x, selects, t);
    }
    forall u | u in PairsOf(x, selects)
      ensures Matched(x, x.Tried(selects), u)
    {
      TriedMatched(x, par, selects, u);
    }
  }
}
