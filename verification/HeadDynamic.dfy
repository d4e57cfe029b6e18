/** `SelectHeadDynamicallyInternal`: groups, bottom-up. */
module HeadDynamic {
  import opened Sets
  import opened Sorting
  import opened BKTree

  /** A node's child with what is left of its subtree. */
  datatype ChildSize = ChildSize(node: nat, size: nat)

  /** A selecting node with the size of the group it closes. */
  datatype Group = Group(node: nat, size: nat)

  /** `m_selectThreshold`, `m_splitThreshold`, `m_splitFactor`. */
  datatype Thresholds = Thresholds(select: int, split: int, factor: int)

  /** `childrenSize`: the node and what its children's subtrees leave over. */
  function GroupSize(tree: Tree, id: nat, select: int): (s: nat)
    requires WellFormed(tree) && id < |tree|
    ensures s >= 1
    decreases |tree| - id, 0
  {
    if IsLeaf(tree, id) then 1 else 1 + ResidualsIn(tree, tree[id].childStart, tree[id].childEnd, select)
  }

  /** The return value: nothing when the node closes a group, its size otherwise. */
  function Residual(tree: Tree, id: nat, select: int): nat
    requires WellFormed(tree) && id < |tree|
    decreases |tree| - id, 1
  {
    if GroupSize(tree, id, select) >= select then 0 else GroupSize(tree, id, select)
  }

  function ResidualsIn(tree: Tree, lo: nat, hi: nat, select: int): nat
    requires WellFormed(tree) && lo <= hi <= |tree|
    decreases |tree| - lo, hi - lo + 1
  {
    if lo == hi then 0 else ResidualsIn(tree, lo, hi - 1, select) + Residual(tree, hi - 1, select)
  }

  /** The selecting nodes below `id`, children first, with the groups they close. */
  function Groups(tree: Tree, id: nat, select: int): seq<Group>
    requires WellFormed(tree) && id < |tree|
    decreases |tree| - id, 1
  {
    GroupsBelow(tree, id, select) + OwnGroup(tree, id, select)
  }

  lemma GroupsSplit(tree: Tree, id: nat, select: int)
    requires WellFormed(tree) && id < |tree|
    ensures Groups(tree, id, select) == GroupsBelow(tree, id, select) + OwnGroup(tree, id, select)
  {
  }

  function GroupsBelow(tree: Tree, id: nat, select: int): seq<Group>
    requires WellFormed(tree) && id < |tree|
    decreases |tree| - id, 0
  {
    if IsLeaf(tree, id) then [] else GroupsIn(tree, tree[id].childStart, tree[id].childEnd, select)
  }

  /** The group that node `id` itself closes. */
  function OwnGroup(tree: Tree, id: nat, select: int): seq<Group>
    requires WellFormed(tree) && id < |tree|
    decreases |tree| - id, 0
  {
    if GroupSize(tree, id, select) >= select then [Group(id, GroupSize(tree, id, select))] else []
  }

  function GroupsIn(tree: Tree, lo: nat, hi: nat, select: int): seq<Group>
    requires WellFormed(tree) && lo <= hi <= |tree|
    decreases |tree| - lo, hi - lo + 1
  {
    if lo == hi then [] else GroupsIn(tree, lo, hi - 1, select) + Groups(tree, hi - 1, select)
  }

  /** The sizes of the first `n` groups together. */
  function SizeOf(groups: seq<Group>, n: nat): nat
    requires n <= |groups|
    decreases n
  {
    if n == 0 then 0 else SizeOf(groups, n - 1) + groups[n - 1].size
  }

  function TotalSize(groups: seq<Group>): nat {
    SizeOf(groups, |groups|)
  }

  lemma {:induction false} SizeOfConcat(a: seq<Group>, b: seq<Group>, n: nat)
    requires n <= |a + b|
    ensures SizeOf(a + b, n) == if n <= |a| then SizeOf(a, n) else SizeOf(a, |a|) + SizeOf(b, n - |a|)
    decreases n
  {
    if n > 0 {
      SizeOfConcat(a, b, n - 1);
    }
  }

  lemma TotalSizeConcat(a: seq<Group>, b: seq<Group>)
    ensures TotalSize(a + b) == TotalSize(a) + TotalSize(b)
  {
    SizeOfConcat(a, b, |a + b|);
  }

  /** The pieces that `f` gives for the first `n` elements, one behind the other. */
  function Flat<T>(f: T -> seq<int>, s: seq<T>, n: nat): seq<int>
    requires n <= |s|
    decreases n
  {
    if n == 0 then [] else Flat(f, s, n - 1) + f(s[n - 1])
  }

  lemma {:induction false} FlatAppend<T>(f: T -> seq<int>, a: seq<T>, b: seq<T>, n: nat)
    requires n <= |a + b|
    ensures Flat(f, a + b, n) == if n <= |a| then Flat(f, a, n) else Flat(f, a, |a|) + Flat(f, b, n - |a|)
    decreases n
  {
    if n > 0 {
      var x := (a + b)[n - 1];
      FlatAppend(f, a, b, n - 1);
      if n > |a| {
        assert x == b[n - 1 - |a|];
        Regrouped(Flat(f, a, |a|), Flat(f, b, n - 1 - |a|), f(x));
      }
    }
  }

  lemma FlatConcat<T>(f: T -> seq<int>, a: seq<T>, b: seq<T>)
    ensures Flat(f, a + b, |a + b|) == Flat(f, a, |a|) + Flat(f, b, |b|)
  {
    FlatAppend(f, a, b, |a + b|);
  }

  lemma FlatOne<T>(f: T -> seq<int>, x: T)
    ensures Flat(f, [x], 1) == f(x)
  {
    assert Flat(f, [x], 0) == [];
  }

  ghost predicate AllBig(groups: seq<Group>, select: int) {
    forall i :: 0 <= i < |groups| ==> groups[i].size >= select
  }

  /** Only groups of at least the threshold are closed. */
  lemma {:induction false} GroupsBig(tree: Tree, id: nat, select: int)
    requires WellFormed(tree) && id < |tree|
    ensures AllBig(Groups(tree, id, select), select)
    decreases |tree| - id, 0
  {
    if !IsLeaf(tree, id) {
      GroupsInBig(tree, tree[id].childStart, tree[id].childEnd, select);
    }
  }

  lemma {:induction false} GroupsInBig(tree: Tree, lo: nat, hi: nat, select: int)
    requires WellFormed(tree) && lo <= hi <= |tree|
    ensures AllBig(GroupsIn(tree, lo, hi, select), select)
    decreases |tree| - lo, hi - lo
  {
    if lo < hi {
      GroupsInBig(tree, lo, hi - 1, select);
      GroupsBig(tree, hi - 1, select);
    }
  }

  lemma {:induction false} SizeOfBound(groups: seq<Group>, select: int, n: nat)
    requires AllBig(groups, select) && n <= |groups|
    ensures SizeOf(groups, n) >= n * select
    decreases n
  {
    if n > 0 {
      SizeOfBound(groups, select, n - 1);
      assert n * select == (n - 1) * select + select;
    }
  }

  /** The nodes at or below `id`. */
  ghost function Subtree(tree: Tree, par: seq<int>, id: nat): set<int>
    requires Parents(tree, par) && id < |tree|
  {
    set m | 0 <= m < |tree| && Under(par, id, m)
  }

  ghost function SubtreesIn(tree: Tree, par: seq<int>, lo: nat, hi: nat): set<int>
    requires Parents(tree, par) && lo <= hi <= |tree|
  {
    set m | 0 <= m < |tree| && UnderOneOf(par, lo, hi, m)
  }

  lemma SubtreeSplit(tree: Tree, par: seq<int>, id: nat)
    requires Parents(tree, par) && id < |tree| && !IsLeaf(tree, id)
    ensures |Subtree(tree, par, id)| == 1 + |SubtreesIn(tree, par, tree[id].childStart, tree[id].childEnd)|
  {
    var lo, hi := tree[id].childStart, tree[id].childEnd;
    forall m: int
      ensures m in Subtree(tree, par, id) <==> m in {id as int} + SubtreesIn(tree, par, lo, hi)
    {
      if 0 <= m < |tree| {
        if m != id && Under(par, id, m) {
          var c := UnderChild(tree, par, id, m);
        }
        if UnderOneOf(par, lo, hi, m) {
          var c :| lo <= c < hi && Under(par, c, m);
          assert IsChild(tree, id, c) && Under(par, id, c);
          UnderTransitive(tree, par, id, c, m);
        }
      }
    }
    forall c | lo <= c < hi
      ensures !Under(par, c, id)
    {
      if Under(par, c, id) {
        UnderOrder(tree, par, c, id);
      }
    }
    UnionSize(Subtree(tree, par, id), {id as int}, SubtreesIn(tree, par, lo, hi));
  }

  lemma SubtreesStep(tree: Tree, par: seq<int>, n: nat, lo: nat, hi: nat)
    requires Parents(tree, par) && n < |tree| && lo < hi <= |tree|
    requires forall c :: lo <= c < hi ==> par[c] == n
    ensures |SubtreesIn(tree, par, lo, hi)| == |SubtreesIn(tree, par, lo, hi - 1)| + |Subtree(tree, par, hi - 1)|
  {
    forall m: int
      ensures m in SubtreesIn(tree, par, lo, hi) <==>
        m in SubtreesIn(tree, par, lo, hi - 1) + Subtree(tree, par, hi - 1)
      ensures !(m in SubtreesIn(tree, par, lo, hi - 1) && m in Subtree(tree, par, hi - 1))
    {
      if 0 <= m < |tree| {
        forall c | lo <= c < hi - 1 && Under(par, c, m)
          ensures !Under(par, hi - 1, m)
        {
          SiblingsDisjoint(tree, par, c, hi - 1, m);
        }
      }
    }
    UnionSize(SubtreesIn(tree, par, lo, hi), SubtreesIn(tree, par, lo, hi - 1), Subtree(tree, par, hi - 1));
  }

  /** Every node of a subtree is either in the residual or in exactly one group: sizes add up. */
  lemma {:induction false} Conservation(tree: Tree, par: seq<int>, id: nat, select: int)
    requires Parents(tree, par) && id < |tree|
    ensures |Subtree(tree, par, id)| == Residual(tree, id, select) + TotalSize(Groups(tree, id, select))
    decreases |tree| - id, 1, 0
  {
    var own := OwnGroup(tree, id, select);
    if IsLeaf(tree, id) {
      forall m: int
        ensures m in Subtree(tree, par, id) <==> m in {id as int}
      {
        if 0 <= m < |tree| && m != id && Under(par, id, m) {
          var c := UnderChild(tree, par, id, m);
        }
      }
      assert Subtree(tree, par, id) == {id as int};
      TotalSizeConcat([], own);
    } else {
      var lo, hi := tree[id].childStart, tree[id].childEnd;
      forall c | lo <= c < hi
        ensures par[c] == id
      {
        assert IsChild(tree, id, c);
      }
      ConservationIn(tree, par, id, lo, hi, select);
      SubtreeSplit(tree, par, id);
      TotalSizeConcat(GroupsIn(tree, lo, hi, select), own);
    }
  }

  lemma {:induction false} ConservationIn(tree: Tree, par: seq<int>, n: nat, lo: nat, hi: nat, select: int)
    requires Parents(tree, par) && n < |tree| && n < lo <= hi <= |tree|
    requires forall c :: lo <= c < hi ==> par[c] == n
    ensures |SubtreesIn(tree, par, lo, hi)| == ResidualsIn(tree, lo, hi, select) +
      TotalSize(GroupsIn(tree, lo, hi, select))
    decreases |tree| - lo, 2, hi - lo
  {
    if lo < hi {
      ConservationIn(tree, par, n, lo, hi - 1, select);
      Conservation(tree, par, hi - 1, select);
      SubtreesStep(tree, par, n, lo, hi);
      TotalSizeConcat(GroupsIn(tree, lo, hi - 1, select), Groups(tree, hi - 1, select));
    } else {
      assert SubtreesIn(tree, par, lo, hi) == {};
    }
  }

  /** The residual stays below a positive threshold, and there is no more room for groups than the subtree has nodes. */
  lemma GroupBounds(tree: Tree, par: seq<int>, id: nat, select: int)
    requires Parents(tree, par) && id < |tree| && select > 0
    ensures Residual(tree, id, select) < select
    ensures |Groups(tree, id, select)| * select <= |Subtree(tree, par, id)|
  {
    Conservation(tree, par, id, select);
    GroupsBig(tree, id, select);
    SizeOfBound(Groups(tree, id, select), select, |Groups(tree, id, select)|);
  }

  // ----- what is selected -----

  function CeilDiv(a: nat, b: int): nat
    requires b > 0
  {
    (a + b - 1) / b
  }

  predicate LargerFirst(a: ChildSize, b: ChildSize) {
    a.size >= b.size
  }

  /** The children that leave something over. */
  function Remaining(tree: Tree, lo: nat, hi: nat, select: int): seq<ChildSize>
    requires WellFormed(tree) && lo <= hi <= |tree|
    decreases hi - lo
  {
    if lo == hi then []
    else Remaining(tree, lo, hi - 1, select) +
         (if Residual(tree, hi - 1, select) > 0 then [ChildSize(hi - 1, Residual(tree, hi - 1, select))] else [])
  }

  function ChildrenOf(tree: Tree, id: nat, select: int): seq<ChildSize>
    requires WellFormed(tree) && id < |tree|
  {
    if IsLeaf(tree, id) then [] else Remaining(tree, tree[id].childStart, tree[id].childEnd, select)
  }

  /** How many children a split adds. */
  function SplitSize(tree: Tree, id: nat, t: Thresholds): nat
    requires WellFormed(tree) && id < |tree| && t.factor > 0
  {
    var cnt, children := CeilDiv(GroupSize(tree, id, t.select), t.factor), |ChildrenOf(tree, id, t.select)|;
    if cnt < children then cnt else children
  }

  function SortedChildren(tree: Tree, id: nat, select: int): (s: seq<ChildSize>)
    requires WellFormed(tree) && id < |tree|
    ensures |s| == |ChildrenOf(tree, id, select)|
  {
    SortByCorrect(ChildrenOf(tree, id, select), LargerFirst);
    SortBy(ChildrenOf(tree, id, select), LargerFirst)
  }

  /** A split adds at most `ceil(size / factor)` children, and none it passes over leaves more than one it takes. */
  lemma SplitTakesLargest(tree: Tree, id: nat, t: Thresholds)
    requires WellFormed(tree) && id < |tree| && t.factor > 0
    ensures var s, n := SortedChildren(tree, id, t.select), SplitSize(tree, id, t);
            && multiset(s[..n]) + multiset(s[n..]) == multiset(ChildrenOf(tree, id, t.select))
            && (forall i, j :: 0 <= i < n && n <= j < |s| ==> s[i].size >= s[j].size)
            && n <= CeilDiv(GroupSize(tree, id, t.select), t.factor)
  {
    var s, n := SortedChildren(tree, id, t.select), SplitSize(tree, id, t);
    SortByCorrect(ChildrenOf(tree, id, t.select), LargerFirst);
    assert s == s[..n] + s[n..];
    forall i, j | 0 <= i < n && n <= j < |s|
      ensures s[i].size >= s[j].size
    {
      assert LargerFirst(s[i], s[j]);
    }
  }

  function CenterOf(tree: Tree, c: ChildSize): int {
    if c.node < |tree| then tree[c.node].centerid else 0
  }

  function CentersOf(tree: Tree, s: seq<ChildSize>): seq<int> {
    seq(|s|, i requires 0 <= i < |s| => CenterOf(tree, s[i]))
  }

  /** What node `id` itself pushes. */
  function Pushed(tree: Tree, id: nat, t: Thresholds): seq<int>
    requires WellFormed(tree) && id < |tree| && t.factor > 0
  {
    if GroupSize(tree, id, t.select) >= t.select then OwnCenter(tree, id) + TakenCenters(tree, id, t) else []
  }

  function OwnCenter(tree: Tree, id: nat): seq<int>
    requires id < |tree|
  {
    if tree[id].centerid < tree[0].centerid then [tree[id].centerid] else []
  }

  /** What a split of the node's group adds. */
  function TakenCenters(tree: Tree, id: nat, t: Thresholds): seq<int>
    requires WellFormed(tree) && id < |tree| && t.factor > 0
  {
    if GroupSize(tree, id, t.select) > t.split then
      CentersOf(tree, SortedChildren(tree, id, t.select)[..SplitSize(tree, id, t)])
    else []
  }

  /** What every group pushes, as a function of the group. */
  function Pusher(tree: Tree, t: Thresholds): Group -> seq<int>
    requires WellFormed(tree) && t.factor > 0
  {
    (g: Group) => if g.node < |tree| then Pushed(tree, g.node, t) else []
  }

  function PushedBy(tree: Tree, groups: seq<Group>, t: Thresholds): seq<int>
    requires WellFormed(tree) && t.factor > 0
  {
    Flat(Pusher(tree, t), groups, |groups|)
  }

  /** What `f` gives for the groups closed at or below a node, in the order in which they are closed. */
  function Collect(f: Group -> seq<int>, tree: Tree, id: nat, select: int): seq<int>
    requires WellFormed(tree) && id < |tree|
    decreases |tree| - id, 1
  {
    CollectBelow(f, tree, id, select) +
    if GroupSize(tree, id, select) >= select then f(Group(id, GroupSize(tree, id, select))) else []
  }

  function CollectBelow(f: Group -> seq<int>, tree: Tree, id: nat, select: int): seq<int>
    requires WellFormed(tree) && id < |tree|
    decreases |tree| - id, 0
  {
    if IsLeaf(tree, id) then [] else CollectIn(f, tree, tree[id].childStart, tree[id].childEnd, select)
  }

  function CollectIn(f: Group -> seq<int>, tree: Tree, lo: nat, hi: nat, select: int): seq<int>
    requires WellFormed(tree) && lo <= hi <= |tree|
    decreases |tree| - lo, hi - lo + 1
  {
    if lo == hi then [] else CollectIn(f, tree, lo, hi - 1, select) + Collect(f, tree, hi - 1, select)
  }

  lemma MoreCollected(f: Group -> seq<int>, tree: Tree, lo: nat, i: nat, select: int)
    requires WellFormed(tree) && lo <= i < |tree|
    ensures CollectIn(f, tree, lo, i + 1, select) == CollectIn(f, tree, lo, i, select) + Collect(f, tree, i, select)
  {
  }

  lemma MoreGroups(tree: Tree, lo: nat, i: nat, select: int)
    requires WellFormed(tree) && lo <= i < |tree|
    ensures GroupsIn(tree, lo, i + 1, select) == GroupsIn(tree, lo, i, select) + Groups(tree, i, select)
  {
  }

  /** Collecting goes through the groups one by one. */
  lemma {:induction false} CollectIsFlat(f: Group -> seq<int>, tree: Tree, id: nat, select: int)
    requires WellFormed(tree) && id < |tree|
    ensures Collect(f, tree, id, select) == Flat(f, Groups(tree, id, select), |Groups(tree, id, select)|)
    decreases |tree| - id, 1
  {
    var own := OwnGroup(tree, id, select);
    CollectBelowIsFlat(f, tree, id, select);
    GroupsSplit(tree, id, select);
    FlatConcat(f, GroupsBelow(tree, id, select), own);
    if own != [] {
      FlatOne(f, own[0]);
    }
  }

  lemma {:induction false} CollectBelowIsFlat(f: Group -> seq<int>, tree: Tree, id: nat, select: int)
    requires WellFormed(tree) && id < |tree|
    ensures CollectBelow(f, tree, id, select) == Flat(f, GroupsBelow(tree, id, select), |GroupsBelow(tree, id, select)|)
    decreases |tree| - id, 0
  {
    if !IsLeaf(tree, id) {
      CollectInIsFlat(f, tree, tree[id].childStart, tree[id].childEnd, select);
    }
  }

  lemma {:induction false} CollectInIsFlat(f: Group -> seq<int>, tree: Tree, lo: nat, hi: nat, select: int)
    requires WellFormed(tree) && lo <= hi <= |tree|
    ensures CollectIn(f, tree, lo, hi, select) ==
      Flat(f, GroupsIn(tree, lo, hi, select), |GroupsIn(tree, lo, hi, select)|)
    decreases |tree| - lo, hi - lo + 1
  {
    if lo < hi {
      var i := hi - 1;
      CollectInIsFlat(f, tree, lo, i, select);
      CollectIsFlat(f, tree, i, select);
      MoreCollected(f, tree, lo, i, select);
      MoreGroups(tree, lo, i, select);
      FlatConcat(f, GroupsIn(tree, lo, i, select), Groups(tree, i, select));
    }
  }

  /** What is selected at or below a node. */
  function Selection(tree: Tree, id: nat, t: Thresholds): seq<int>
    requires WellFormed(tree) && id < |tree| && t.factor > 0
  {
    Collect(Pusher(tree, t), tree, id, t.select)
  }

  function SelectionBelow(tree: Tree, id: nat, t: Thresholds): seq<int>
    requires WellFormed(tree) && id < |tree| && t.factor > 0
  {
    CollectBelow(Pusher(tree, t), tree, id, t.select)
  }

  function SelectionIn(tree: Tree, lo: nat, hi: nat, t: Thresholds): seq<int>
    requires WellFormed(tree) && lo <= hi <= |tree| && t.factor > 0
  {
    CollectIn(Pusher(tree, t), tree, lo, hi, t.select)
  }

  /** The node itself pushes last. */
  lemma SelectionSplit(tree: Tree, id: nat, t: Thresholds)
    requires WellFormed(tree) && id < |tree| && t.factor > 0
    ensures Selection(tree, id, t) == SelectionBelow(tree, id, t) + Pushed(tree, id, t)
  {
  }

  lemma MoreSelected(tree: Tree, lo: nat, i: nat, t: Thresholds)
    requires WellFormed(tree) && lo <= i < |tree| && t.factor > 0
    ensures SelectionIn(tree, lo, i + 1, t) == SelectionIn(tree, lo, i, t) + Selection(tree, i, t)
  {
    MoreCollected(Pusher(tree, t), tree, lo, i, t.select);
  }

  /** The selection is what the groups push, in the order in which they are closed, and nothing else. */
  lemma SelectionByGroups(tree: Tree, id: nat, t: Thresholds)
    requires WellFormed(tree) && id < |tree| && t.factor > 0
    ensures Selection(tree, id, t) == PushedBy(tree, Groups(tree, id, t.select), t)
  {
    CollectIsFlat(Pusher(tree, t), tree, id, t.select);
  }

  lemma {:induction false} RemainingNodes(tree: Tree, lo: nat, hi: nat, select: int)
    requires WellFormed(tree) && lo <= hi <= |tree|
    ensures forall i :: 0 <= i < |Remaining(tree, lo, hi, select)| ==>
      lo <= Remaining(tree, lo, hi, select)[i].node < hi
    decreases hi
  {
    if lo < hi {
      RemainingNodes(tree, lo, hi - 1, select);
    }
  }

  lemma SortedChildrenNodes(tree: Tree, id: nat, select: int)
    requires WellFormed(tree) && id < |tree|
    ensures forall i :: 0 <= i < |SortedChildren(tree, id, select)| ==>
      IsChild(tree, id, SortedChildren(tree, id, select)[i].node)
  {
    var s, children := SortedChildren(tree, id, select), ChildrenOf(tree, id, select);
    SortByCorrect(children, LargerFirst);
    if !IsLeaf(tree, id) {
      RemainingNodes(tree, tree[id].childStart, tree[id].childEnd, select);
    }
    forall i | 0 <= i < |s|
      ensures IsChild(tree, id, s[i].node)
    {
      assert s[i] in multiset(s);
      assert s[i] in children;
    }
  }

  method PushCenters(tree: Tree, children: seq<ChildSize>, selectCnt: nat, selected: seq<int>) returns (out: seq<int>)
    requires forall i :: 0 <= i < |children| ==> children[i].node < |tree|
    ensures out == selected + CentersOf(tree, children[..if selectCnt < |children| then selectCnt else |children|])
  {
    out := selected;
    var i := 0;
    while i < selectCnt && i < |children|
      invariant i <= selectCnt && i <= |children|
      invariant out == selected + CentersOf(tree, children[..i])
    {
      out := out + [tree[children[i].node].centerid];
      assert CentersOf(tree, children[..i + 1]) == CentersOf(tree, children[..i]) + [tree[children[i].node].centerid];
      i := i + 1;
    }
  }

  /** What a node that closes its group pushes: its center, and the largest children of a big group. */
  method PushSelected(tree: Tree, id: nat, t: Thresholds, remaining: seq<ChildSize>, childrenSize: nat,
      selected: seq<int>) returns (out: seq<int>)
    requires WellFormed(tree) && id < |tree| && t.factor > 0
    requires remaining == ChildrenOf(tree, id, t.select) && childrenSize == GroupSize(tree, id, t.select) >= t.select
    ensures out == selected + Pushed(tree, id, t)
  {
    out := selected;
    if tree[id].centerid < tree[0].centerid {
      out := out + [tree[id].centerid];
    }
    assert out == selected + OwnCenter(tree, id);
    if childrenSize > t.split {
      out := PushSplit(tree, id, t, remaining, childrenSize, out);
    }
    Regrouped(selected, OwnCenter(tree, id), TakenCenters(tree, id, t));
  }

  method PushSplit(tree: Tree, id: nat, t: Thresholds, remaining: seq<ChildSize>, childrenSize: nat,
      selected: seq<int>) returns (out: seq<int>)
    requires WellFormed(tree) && id < |tree| && t.factor > 0
    requires remaining == ChildrenOf(tree, id, t.select) && childrenSize == GroupSize(tree, id, t.select)
    ensures out == selected + CentersOf(tree, SortedChildren(tree, id, t.select)[..SplitSize(tree, id, t)])
  {
    SortedChildrenNodes(tree, id, t.select);
    var children := SortBy(remaining, LargerFirst);
    assert children == SortedChildren(tree, id, t.select);
    forall i | 0 <= i < |children|
      ensures children[i].node < |tree|
    {
      assert IsChild(tree, id, children[i].node);
    }
    out := PushCenters(tree, children, CeilDiv(childrenSize, t.factor), selected);
  }

  /** The recursion over the children. */
  method VisitChildren(tree: Tree, id: nat, t: Thresholds, selected: seq<int>)
    returns (children: seq<ChildSize>, childrenSize: nat, out: seq<int>)
    requires WellFormed(tree) && id < |tree| && t.factor > 0 && tree[id].childStart >= 0
    ensures children == ChildrenOf(tree, id, t.select) && childrenSize == GroupSize(tree, id, t.select)
    ensures out == selected + SelectionBelow(tree, id, t)
    decreases |tree| - id, 0
  {
    children, childrenSize, out := [], 1, selected;
    var lo, hi := tree[id].childStart, tree[id].childEnd;
    for i := lo to hi
      invariant Visit(children, childrenSize, out) == VisitOf(tree, lo, i, t, selected)
    {
      children, childrenSize, out := VisitChild(tree, i, t, children, childrenSize, out);
    }
    VisitedAll(tree, id, t, selected);
  }

  lemma VisitedAll(tree: Tree, id: nat, t: Thresholds, selected: seq<int>)
    requires WellFormed(tree) && id < |tree| && t.factor > 0 && !IsLeaf(tree, id)
    ensures VisitOf(tree, tree[id].childStart, tree[id].childEnd, t, selected) ==
      Visit(ChildrenOf(tree, id, t.select), GroupSize(tree, id, t.select), selected + SelectionBelow(tree, id, t))
  {
    VisitIs(tree, tree[id].childStart, tree[id].childEnd, t, selected);
  }

  /** The running values of the loop over the children. */
  datatype Visit = Visit(children: seq<ChildSize>, size: nat, out: seq<int>)

  /** One more child. */
  function Add(tree: Tree, v: Visit, i: nat, t: Thresholds): Visit
    requires WellFormed(tree) && i < |tree| && t.factor > 0
  {
    var cs := Residual(tree, i, t.select);
    Visit(if cs > 0 then v.children + [ChildSize(i, cs)] else v.children, v.size + cs, v.out + Selection(tree, i, t))
  }

  /** What they are after the children `lo` to `i`. */
  function VisitOf(tree: Tree, lo: nat, i: nat, t: Thresholds, selected: seq<int>): Visit
    requires WellFormed(tree) && lo <= i <= |tree| && t.factor > 0
    decreases i
  {
    if lo == i then Visit([], 1, selected) else Add(tree, VisitOf(tree, lo, i - 1, t, selected), i - 1, t)
  }

  lemma {:induction false} VisitIs(tree: Tree, lo: nat, i: nat, t: Thresholds, selected: seq<int>)
    requires WellFormed(tree) && lo <= i <= |tree| && t.factor > 0
    ensures VisitOf(tree, lo, i, t, selected)
      == Visit(Remaining(tree, lo, i, t.select), 1 + ResidualsIn(tree, lo, i, t.select),
        selected + SelectionIn(tree, lo, i, t))
    decreases i
  {
    if lo == i {
      NoneSelected(tree, lo, t);
    } else {
      VisitIs(tree, lo, i - 1, t, selected);
      MoreRemaining(tree, lo, i - 1, t.select);
      MoreResiduals(tree, lo, i - 1, t.select);
      MoreSelected(tree, lo, i - 1, t);
      Regrouped(selected, SelectionIn(tree, lo, i - 1, t), Selection(tree, i - 1, t));
    }
  }

  lemma NoneSelected(tree: Tree, lo: nat, t: Thresholds)
    requires WellFormed(tree) && lo <= |tree| && t.factor > 0
    ensures SelectionIn(tree, lo, lo, t) == []
  {
  }

  /** One turn of the loop over the children. */
  method VisitChild(tree: Tree, i: nat, t: Thresholds, children0: seq<ChildSize>, childrenSize0: nat, out0: seq<int>)
    returns (children: seq<ChildSize>, childrenSize: nat, out: seq<int>)
    requires WellFormed(tree) && i < |tree| && t.factor > 0
    ensures Visit(children, childrenSize, out) == Add(tree, Visit(children0, childrenSize0, out0), i, t)
    decreases |tree| - i, 2
  {
    children, childrenSize := children0, childrenSize0;
    var cs;
    cs, out := SelectHeadDynamicallyInternal(tree, i, t, out0);
    if cs > 0 {
      children := children + [ChildSize(i, cs)];
      childrenSize := childrenSize + cs;
    }
  }

  lemma MoreRemaining(tree: Tree, lo: nat, i: nat, select: int)
    requires WellFormed(tree) && lo <= i < |tree|
    ensures var cs := Residual(tree, i, select);
      Remaining(tree, lo, i + 1, select) == Remaining(tree, lo, i, select) + (if cs > 0 then [ChildSize(i, cs)] else [])
  {
  }

  lemma MoreResiduals(tree: Tree, lo: nat, i: nat, select: int)
    requires WellFormed(tree) && lo <= i < |tree|
    ensures ResidualsIn(tree, lo, i + 1, select) == ResidualsIn(tree, lo, i, select) + Residual(tree, i, select)
  {
  }

  /** The recursion itself: it returns the residual and appends the selection. */
  method SelectHeadDynamicallyInternal(tree: Tree, id: nat, t: Thresholds, selected: seq<int>)
    returns (residual: nat, out: seq<int>)
    requires WellFormed(tree) && id < |tree| && t.factor > 0
    ensures residual == Residual(tree, id, t.select)
    ensures out == selected + Selection(tree, id, t)
    decreases |tree| - id, 1
  {
    SelectionSplit(tree, id, t);
    var children: seq<ChildSize> := [];
    var childrenSize := 1;
    out := selected;
    if tree[id].childStart >= 0 {
      children, childrenSize, out := VisitChildren(tree, id, t, out);
    }
    assert out == selected + SelectionBelow(tree, id, t);
    if childrenSize >= t.select {
      out := PushSelected(tree, id, t, children, childrenSize, out);
      residual := 0;
    } else {
      residual := childrenSize;
    }
    Regrouped(selected, SelectionBelow(tree, id, t), Pushed(tree, id, t));
  }

  lemma Regrouped(a: seq<int>, b: seq<int>, c: seq<int>)
    ensures a + b + c == a + (b + c)
    ensures c == [] ==> b + c == b
  {
  }
}
