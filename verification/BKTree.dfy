/** The balanced k-means tree as head selection sees it: nodes in an array, children as index ranges. */
module BKTree {
  import opened Sets

  const INT32_MAX: int := 0x7fff_ffff

  datatype Node = Node(centerid: int, childStart: int, childEnd: int)

  type Tree = seq<Node>

  /** A node has no children, or a non-empty range of children at larger indices. */
  ghost predicate WellFormed(tree: Tree) {
    && 0 < |tree| < INT32_MAX
    && forall n :: 0 <= n < |tree| && tree[n].childStart >= 0 ==> n < tree[n].childStart < tree[n].childEnd <= |tree|
  }

  predicate IsLeaf(tree: Tree, n: nat)
    requires n < |tree|
  {
    tree[n].childStart < 0
  }

  predicate IsChild(tree: Tree, n: nat, c: nat)
    requires n < |tree|
  {
    0 <= tree[n].childStart <= c < tree[n].childEnd
  }

  /** `par` names the parent of every node that has one; nodes outside the first tree may have none. */
  ghost predicate Parents(tree: Tree, par: seq<int>) {
    && WellFormed(tree) && |par| == |tree| && par[0] == -1
    && (forall c :: 0 <= c < |tree| ==> -1 <= par[c] < c)
    && (forall n, c :: 0 <= n < |tree| && 0 <= c < |tree| ==> (IsChild(tree, n, c) <==> par[c] == n))
  }

  /** `a` is `m` or one of its ancestors. */
  ghost predicate Under(par: seq<int>, a: nat, m: nat)
    requires forall c :: 0 <= c < |par| ==> -1 <= par[c] < c
    requires m < |par|
    decreases m
  {
    a == m || (par[m] >= 0 && Under(par, a, par[m]))
  }

  lemma {:induction false} UnderOrder(tree: Tree, par: seq<int>, a: nat, m: nat)
    requires Parents(tree, par) && m < |tree| && Under(par, a, m)
    ensures a <= m
    decreases m
  {
    if a != m {
      UnderOrder(tree, par, a, par[m]);
    }
  }

  lemma {:induction false} UnderTransitive(tree: Tree, par: seq<int>, a: nat, b: nat, m: nat)
    requires Parents(tree, par) && b < |tree| && m < |tree| && Under(par, a, b) && Under(par, b, m)
    ensures Under(par, a, m)
    decreases m
  {
    if b != m {
      UnderTransitive(tree, par, a, b, par[m]);
    }
  }

  /** The ancestors of a node form a chain. */
  lemma {:induction false} AncestorsChain(tree: Tree, par: seq<int>, a: nat, b: nat, m: nat)
    requires Parents(tree, par) && a < |tree| && b < |tree| && m < |tree| && Under(par, a, m) && Under(par, b, m)
    ensures Under(par, a, b) || Under(par, b, a)
    decreases m
  {
    if a != m && b != m {
      AncestorsChain(tree, par, a, b, par[m]);
    }
  }

  /** The subtrees of two children of the same node share nothing. */
  lemma SiblingsDisjoint(tree: Tree, par: seq<int>, a: nat, b: nat, m: nat)
    requires Parents(tree, par) && a < |tree| && b < |tree| && m < |tree|
    requires a != b && par[a] == par[b] >= 0 && Under(par, a, m)
    ensures !Under(par, b, m)
  {
    if Under(par, b, m) {
      AncestorsChain(tree, par, a, b, m);
      if Under(par, a, b) {
        UnderOrder(tree, par, a, par[b]);
      } else {
        UnderOrder(tree, par, b, par[a]);
      }
    }
  }

  /** Below a node means below one of its children. */
  lemma {:induction false} UnderChild(tree: Tree, par: seq<int>, a: nat, m: nat) returns (c: nat)
    requires Parents(tree, par) && m < |tree| && Under(par, a, m) && a != m
    ensures c < |tree| && a < c && par[c] == a && IsChild(tree, a, c) && Under(par, c, m)
    decreases m
  {
    UnderOrder(tree, par, a, m);
    if par[m] == a {
      c := m;
    } else {
      c := UnderChild(tree, par, a, par[m]);
    }
  }

  // ----- leaf counts and depths -----

  /** The number of leaves below node `n`. */
  function Leaves(tree: Tree, n: nat): (s: nat)
    requires WellFormed(tree) && n < |tree|
    decreases |tree| - n, 0
  {
    if IsLeaf(tree, n) then 1 else LeavesIn(tree, tree[n].childStart, tree[n].childEnd)
  }

  function LeavesIn(tree: Tree, lo: nat, hi: nat): nat
    requires WellFormed(tree) && lo <= hi <= |tree|
    decreases |tree| - lo, hi - lo
  {
    if lo == hi then 0 else LeavesIn(tree, lo, hi - 1) + Leaves(tree, hi - 1)
  }

  function MinDepth(tree: Tree, n: nat): nat
    requires WellFormed(tree) && n < |tree|
    decreases |tree| - n, 0
  {
    if IsLeaf(tree, n) then 0 else MinDepthIn(tree, tree[n].childStart, tree[n].childEnd) + 1
  }

  function MinDepthIn(tree: Tree, lo: nat, hi: nat): nat
    requires WellFormed(tree) && lo <= hi <= |tree|
    decreases |tree| - lo, hi - lo
  {
    if lo == hi then INT32_MAX
    else
      var before, last := MinDepthIn(tree, lo, hi - 1), MinDepth(tree, hi - 1);
      if before > last then last else before
  }

  function MaxDepth(tree: Tree, n: nat): nat
    requires WellFormed(tree) && n < |tree|
    decreases |tree| - n, 0
  {
    if IsLeaf(tree, n) then 0 else MaxDepthIn(tree, tree[n].childStart, tree[n].childEnd) + 1
  }

  function MaxDepthIn(tree: Tree, lo: nat, hi: nat): nat
    requires WellFormed(tree) && lo <= hi <= |tree|
    decreases |tree| - lo, hi - lo
  {
    if lo == hi then 0
    else
      var before, last := MaxDepthIn(tree, lo, hi - 1), MaxDepth(tree, hi - 1);
      if before < last then last else before
  }

  /** The leaves below `n`, as a set. */
  ghost function LeafSet(tree: Tree, par: seq<int>, n: nat): set<int>
    requires Parents(tree, par) && n < |tree|
  {
    set m | 0 <= m < |tree| && IsLeaf(tree, m) && Under(par, n, m)
  }

  ghost function LeafSetIn(tree: Tree, par: seq<int>, lo: nat, hi: nat): set<int>
    requires Parents(tree, par) && lo <= hi <= |tree|
  {
    set m | 0 <= m < |tree| && IsLeaf(tree, m) && UnderOneOf(par, lo, hi, m)
  }

  ghost predicate UnderOneOf(par: seq<int>, lo: nat, hi: nat, m: nat)
    requires forall c :: 0 <= c < |par| ==> -1 <= par[c] < c
    requires m < |par|
  {
    exists c :: lo <= c < hi && Under(par, c, m)
  }

  /** `Leaves` counts exactly the leaves below the node. */
  lemma {:induction false} LeavesCount(tree: Tree, par: seq<int>, n: nat)
    requires Parents(tree, par) && n < |tree|
    ensures Leaves(tree, n) == |LeafSet(tree, par, n)|
    decreases |tree| - n, 1, 0
  {
    if IsLeaf(tree, n) {
      forall m | m in LeafSet(tree, par, n)
        ensures m == n
      {
        if m != n {
          var c := UnderChild(tree, par, n, m);
        }
      }
      assert LeafSet(tree, par, n) == {n};
    } else {
      var lo, hi := tree[n].childStart, tree[n].childEnd;
      forall c | lo <= c < hi
        ensures par[c] == n
      {
        assert IsChild(tree, n, c);
      }
      LeavesInCount(tree, par, n, lo, hi);
      forall m | m in LeafSet(tree, par, n)
        ensures m in LeafSetIn(tree, par, lo, hi)
      {
        var c := UnderChild(tree, par, n, m);
      }
      forall m | m in LeafSetIn(tree, par, lo, hi)
        ensures m in LeafSet(tree, par, n)
      {
        var c :| lo <= c < hi && Under(par, c, m);
        assert IsChild(tree, n, c) && Under(par, n, c);
        UnderTransitive(tree, par, n, c, m);
      }
      assert LeafSet(tree, par, n) == LeafSetIn(tree, par, lo, hi);
    }
  }

  lemma {:induction false} LeavesInCount(tree: Tree, par: seq<int>, n: nat, lo: nat, hi: nat)
    requires Parents(tree, par) && n < |tree| && n < lo <= hi <= |tree|
    requires forall c :: lo <= c < hi ==> par[c] == n
    ensures LeavesIn(tree, lo, hi) == |LeafSetIn(tree, par, lo, hi)|
    decreases |tree| - lo, 2, hi - lo
  {
    if lo < hi {
      LeavesInCount(tree, par, n, lo, hi - 1);
      LeavesCount(tree, par, hi - 1);
      var a, b := LeafSetIn(tree, par, lo, hi - 1), LeafSet(tree, par, hi - 1);
      forall m | 0 <= m < |tree|
        ensures UnderOneOf(par, lo, hi, m) <==> UnderOneOf(par, lo, hi - 1, m) || Under(par, hi - 1, m)
        ensures !(UnderOneOf(par, lo, hi - 1, m) && Under(par, hi - 1, m))
      {
        forall c | lo <= c < hi - 1 && Under(par, c, m)
          ensures !Under(par, hi - 1, m)
        {
          SiblingsDisjoint(tree, par, c, hi - 1, m);
        }
      }
      assert LeafSetIn(tree, par, lo, hi) == a + b;
      assert a !! b;
    } else {
      assert LeafSetIn(tree, par, lo, hi) == {};
    }
  }

  /** Steps from `a` down to `m`. */
  ghost function Steps(par: seq<int>, a: nat, m: nat): nat
    requires forall c :: 0 <= c < |par| ==> -1 <= par[c] < c
    requires m < |par| && Under(par, a, m)
    decreases m
  {
    if a == m then 0 else Steps(par, a, par[m]) + 1
  }

  lemma {:induction false} StepsFromChild(tree: Tree, par: seq<int>, a: nat, c: nat, m: nat)
    requires Parents(tree, par) && c < |tree| && m < |tree| && par[c] == a && Under(par, c, m)
    ensures Under(par, a, m) && Steps(par, a, m) == Steps(par, c, m) + 1
    decreases m
  {
    UnderOrder(tree, par, c, m);
    if c != m {
      StepsFromChild(tree, par, a, c, par[m]);
    }
  }

  /** `MinDepth` and `MaxDepth` are the distances to the nearest and the farthest leaf below. */
  lemma {:induction false} DepthBounds(tree: Tree, par: seq<int>, n: nat, m: nat)
    requires Parents(tree, par) && n < |tree| && m < |tree| && IsLeaf(tree, m) && Under(par, n, m)
    ensures MinDepth(tree, n) <= Steps(par, n, m) <= MaxDepth(tree, n)
    decreases |tree| - n
  {
    if n != m {
      var c := UnderChild(tree, par, n, m);
      DepthBounds(tree, par, c, m);
      StepsFromChild(tree, par, n, c, m);
      DepthInBounds(tree, tree[n].childStart, tree[n].childEnd, c);
    }
  }

  lemma {:induction false} DepthInBounds(tree: Tree, lo: nat, hi: nat, c: nat)
    requires WellFormed(tree) && lo <= c < hi <= |tree|
    ensures MinDepthIn(tree, lo, hi) <= MinDepth(tree, c) && MaxDepth(tree, c) <= MaxDepthIn(tree, lo, hi)
    decreases hi
  {
    if c < hi - 1 {
      DepthInBounds(tree, lo, hi - 1, c);
    }
  }

  lemma {:induction false} MinDepthReached(tree: Tree, par: seq<int>, n: nat) returns (m: nat)
    requires Parents(tree, par) && n < |tree|
    ensures m < |tree| && IsLeaf(tree, m) && Under(par, n, m) && Steps(par, n, m) == MinDepth(tree, n) < |tree| - n
    decreases |tree| - n
  {
    if IsLeaf(tree, n) {
      m := n;
    } else {
      var lo, hi := tree[n].childStart, tree[n].childEnd;
      m := MinDepthReached(tree, par, lo);
      var best := lo;
      var c := lo + 1;
      while c < hi
        invariant lo <= best < c <= hi
        invariant MinDepthIn(tree, lo, c) == MinDepth(tree, best)
        invariant m < |tree| && IsLeaf(tree, m) && Under(par, best, m)
          && Steps(par, best, m) == MinDepth(tree, best) < |tree| - best
      {
        if MinDepth(tree, best) > MinDepth(tree, c) {
          best := c;
          m := MinDepthReached(tree, par, c);
        }
        c := c + 1;
      }
      assert IsChild(tree, n, best);
      StepsFromChild(tree, par, n, best, m);
    }
  }

  lemma {:induction false} MaxDepthReached(tree: Tree, par: seq<int>, n: nat) returns (m: nat)
    requires Parents(tree, par) && n < |tree|
    ensures m < |tree| && IsLeaf(tree, m) && Under(par, n, m) && Steps(par, n, m) == MaxDepth(tree, n)
    decreases |tree| - n
  {
    if IsLeaf(tree, n) {
      m := n;
    } else {
      var c := DeepestChild(tree, tree[n].childStart, tree[n].childEnd);
      m := MaxDepthReached(tree, par, c);
      assert IsChild(tree, n, c);
      StepsFromChild(tree, par, n, c, m);
    }
  }

  lemma {:induction false} DeepestChild(tree: Tree, lo: nat, hi: nat) returns (c: nat)
    requires WellFormed(tree) && lo < hi <= |tree|
    ensures lo <= c < hi && MaxDepth(tree, c) == MaxDepthIn(tree, lo, hi)
    decreases hi
  {
    c := hi - 1;
    if lo < hi - 1 {
      var d := DeepestChild(tree, lo, hi - 1);
      if MaxDepth(tree, hi - 1) < MaxDepth(tree, d) {
        c := d;
      }
    }
  }
}
