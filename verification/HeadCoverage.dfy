/**
  `DfsCovered`: the leaves that have a selected node at or above them, counted by a recursion over the tree.
 */
module HeadCoverage {
  import opened Sets
  import opened Sorting
  import opened BKTree
  import opened HeadStatistics

  datatype Options = Options(selectThreshold: int, splitThreshold: int, splitFactor: int, ratio: real,
      recursiveCheck: bool)

  // ----- DfsCovered -----

  /** `DfsCovered`: leaves at or below a node whose center is selected; `covered` says a node above already was. */
  function Covered(tree: Tree, id: nat, selected: set<int>, covered: bool): nat
    requires WellFormed(tree) && id < |tree|
    decreases |tree| - id, 0
  {
    var c := covered || tree[id].centerid in selected;
    if IsLeaf(tree, id) then (if c then 1 else 0)
    else CoveredIn(tree, tree[id].childStart, tree[id].childEnd, selected, c)
  }

  function CoveredIn(tree: Tree, lo: nat, hi: nat, selected: set<int>, covered: bool): nat
    requires WellFormed(tree) && lo <= hi <= |tree|
    decreases |tree| - lo, hi - lo
  {
    if lo == hi then 0 else CoveredIn(tree, lo, hi - 1, selected, covered) + Covered(tree, hi - 1, selected, covered)
  }

  /** Some node from `top` down to `m` has a selected center. */
  ghost predicate HasHead(tree: Tree, par: seq<int>, selected: set<int>, top: nat, m: nat)
    requires Parents(tree, par) && top < |tree| && m < |tree|
  {
    exists a :: 0 <= a < |tree| && Under(par, top, a) && Under(par, a, m) && tree[a].centerid in selected
  }

  ghost function CoveredLeaves(tree: Tree, par: seq<int>, selected: set<int>, id: nat, covered: bool): set<int>
    requires Parents(tree, par) && id < |tree|
  {
    set m | m in LeafSet(tree, par, id) && (covered || HasHead(tree, par, selected, id, m))
  }

  lemma HasHeadSplit(tree: Tree, par: seq<int>, selected: set<int>, n: nat, c: nat, m: nat)
    requires Parents(tree, par) && n < |tree| && c < |tree| && m < |tree| && par[c] == n && Under(par, c, m)
    ensures HasHead(tree, par, selected, n, m) <==> tree[n].centerid in selected || HasHead(tree, par, selected, c, m)
  {
    assert Under(par, n, c);
    UnderTransitive(tree, par, n, c, m);
    assert Under(par, n, n);
    forall a | 0 <= a < |tree| && Under(par, n, a) && Under(par, a, m) && tree[a].centerid in selected && a != n
      ensures HasHead(tree, par, selected, c, m)
    {
      var d := UnderChild(tree, par, n, a);
      UnderTransitive(tree, par, d, a, m);
      if d != c {
        SiblingsDisjoint(tree, par, c, d, m);
      }
    }
    forall a | 0 <= a < |tree| && Under(par, c, a) && Under(par, a, m) && tree[a].centerid in selected
      ensures HasHead(tree, par, selected, n, m)
    {
      UnderTransitive(tree, par, n, c, a);
    }
  }

  /** `DfsCovered` counts exactly the leaves that have a head at or above them. */
  lemma {:induction false} CoveredCount(tree: Tree, par: seq<int>, id: nat, selected: set<int>, covered: bool)
    requires Parents(tree, par) && id < |tree|
    ensures Covered(tree, id, selected, covered) == |CoveredLeaves(tree, par, selected, id, covered)|
    decreases |tree| - id, 1, 0
  {
    var now := covered || tree[id].centerid in selected;
    assert Under(par, id, id);
    if IsLeaf(tree, id) {
      forall m | 0 <= m < |tree| && m != id
        ensures !Under(par, id, m)
      {
        if Under(par, id, m) {
          var c := UnderChild(tree, par, id, m);
        }
      }
      assert HasHead(tree, par, selected, id, id) <==> tree[id].centerid in selected;
      assert CoveredLeaves(tree, par, selected, id, covered) == if now then {id} else {};
    } else {
      var lo, hi := tree[id].childStart, tree[id].childEnd;
      forall c | lo <= c < hi
        ensures par[c] == id
      {
        assert IsChild(tree, id, c);
      }
      CoveredInCount(tree, par, id, lo, hi, selected, now);
      forall m | 0 <= m < |tree|
        ensures m in CoveredLeaves(tree, par, selected, id, covered) <==>
          m in CoveredBelow(tree, par, selected, lo, hi, now)
      {
        if Under(par, id, m) && m != id {
          var c := UnderChild(tree, par, id, m);
          ChildrenCovered(tree, par, selected, id, lo, hi, c, m, now);
          HasHeadSplit(tree, par, selected, id, c, m);
        } else {
          forall c | lo <= c < hi && Under(par, c, m)
            ensures false
          {
            assert Under(par, id, c);
            UnderTransitive(tree, par, id, c, m);
            UnderOrder(tree, par, c, m);
          }
        }
      }
      assert CoveredLeaves(tree, par, selected, id, covered) == CoveredBelow(tree, par, selected, lo, hi, now);
    }
  }

  /** Leaf `m` lies below one of the nodes `lo` to `hi` and is covered there. */
  ghost predicate CoveredUnder(tree: Tree, par: seq<int>, selected: set<int>, lo: nat, hi: nat, covered: bool, m: nat)
    requires Parents(tree, par) && lo <= hi <= |tree| && m < |tree|
  {
    exists c :: lo <= c < hi && Under(par, c, m) && (covered || HasHead(tree, par, selected, c, m))
  }

  ghost function CoveredBelow(tree: Tree, par: seq<int>, selected: set<int>, lo: nat, hi: nat, covered: bool): set<int>
    requires Parents(tree, par) && lo <= hi <= |tree|
  {
    set m | 0 <= m < |tree| && IsLeaf(tree, m) && CoveredUnder(tree, par, selected, lo, hi, covered, m)
  }

  lemma ChildrenCovered(tree: Tree, par: seq<int>, selected: set<int>, n: nat, lo: nat, hi: nat, c: nat, m: nat,
      covered: bool)
    requires Parents(tree, par) && n < |tree| && lo <= c < hi <= |tree| && m < |tree| && Under(par, c, m)
    requires forall d :: lo <= d < hi ==> par[d] == n
    ensures CoveredUnder(tree, par, selected, lo, hi, covered, m) <==> covered || HasHead(tree, par, selected, c, m)
  {
    forall d | lo <= d < hi && Under(par, d, m)
      ensures d == c
    {
      if d != c {
        SiblingsDisjoint(tree, par, c, d, m);
      }
    }
  }

  ghost predicate LastCovers(tree: Tree, par: seq<int>, selected: set<int>, c: nat, covered: bool, m: nat)
    requires Parents(tree, par) && c < |tree| && m < |tree|
  {
    Under(par, c, m) && (covered || HasHead(tree, par, selected, c, m))
  }

  lemma CoveredUnderStep(tree: Tree, par: seq<int>, selected: set<int>, n: nat, lo: nat, hi: nat, covered: bool, m: nat)
    requires Parents(tree, par) && n < |tree| && lo < hi <= |tree| && m < |tree|
    requires forall c :: lo <= c < hi ==> par[c] == n
    ensures CoveredUnder(tree, par, selected, lo, hi, covered, m) <==>
      CoveredUnder(tree, par, selected, lo, hi - 1, covered, m) || LastCovers(tree, par, selected, hi - 1, covered, m)
    ensures !(CoveredUnder(tree, par, selected, lo, hi - 1, covered, m) && Under(par, hi - 1, m))
  {
    forall c | lo <= c < hi - 1 && Under(par, c, m)
      ensures !Under(par, hi - 1, m)
    {
      SiblingsDisjoint(tree, par, c, hi - 1, m);
    }
  }

  lemma CoveredBelowStep(tree: Tree, par: seq<int>, selected: set<int>, n: nat, lo: nat, hi: nat, covered: bool)
    requires Parents(tree, par) && n < |tree| && lo < hi <= |tree|
    requires forall c :: lo <= c < hi ==> par[c] == n
    ensures |CoveredBelow(tree, par, selected, lo, hi, covered)| ==
      |CoveredBelow(tree, par, selected, lo, hi - 1, covered)| + |CoveredLeaves(tree, par, selected, hi - 1, covered)|
  {
    var whole, a, b := CoveredBelow(tree, par, selected, lo, hi, covered),
      CoveredBelow(tree, par, selected, lo, hi - 1, covered),
      CoveredLeaves(tree, par, selected, hi - 1, covered);
    forall m
      ensures m in whole <==> m in a + b
      ensures !(m in a && m in b)
    {
      if 0 <= m < |tree| {
        CoveredUnderStep(tree, par, selected, n, lo, hi, covered, m);
      }
    }
    UnionSize(whole, a, b);
  }

  lemma {:induction false} CoveredInCount(tree: Tree, par: seq<int>, n: nat, lo: nat, hi: nat, selected: set<int>,
      covered: bool)
    requires Parents(tree, par) && n < |tree| && n < lo <= hi <= |tree|
    requires forall c :: lo <= c < hi ==> par[c] == n
    ensures CoveredIn(tree, lo, hi, selected, covered) == |CoveredBelow(tree, par, selected, lo, hi, covered)|
    decreases |tree| - lo, 2, hi - lo
  {
    if lo < hi {
      CoveredInCount(tree, par, n, lo, hi - 1, selected, covered);
      CoveredCount(tree, par, hi - 1, selected, covered);
      CoveredBelowStep(tree, par, selected, n, lo, hi, covered);
    } else {
      assert |CoveredBelow(tree, par, selected, lo, hi, covered)| == 0 by {
        assert CoveredBelow(tree, par, selected, lo, hi, covered) == {};
      }
    }
  }
}
