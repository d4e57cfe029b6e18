/** What every closing node adds to the dynamic selection, and in which order. */
module HeadSegments {
  import opened Sets
  import opened Sorting
  import opened BKTree
  import opened HeadDynamic
  import opened HeadGroups

  // ----- the group of a node -----

  /** Between `id` and `m`, `id` left out, no node closes a group. */
  ghost predicate OpenPath(tree: Tree, par: seq<int>, id: nat, m: nat, select: int)
    requires Parents(tree, par) && id < |tree| && m < |tree|
  {
    forall a :: 0 <= a < |tree| && a != id && Under(par, id, a) && Under(par, a, m) ==>
      GroupSize(tree, a, select) < select
  }

  /** The nodes at or below `id` that no other closing node has cut off. */
  ghost function GroupNodes(tree: Tree, par: seq<int>, id: nat, select: int): set<int>
    requires Parents(tree, par) && id < |tree|
  {
    set m | 0 <= m < |tree| && Under(par, id, m) && OpenPath(tree, par, id, m, select)
  }

  /** What the children `lo` to `hi` leave over. */
  ghost function LeftOver(tree: Tree, par: seq<int>, lo: nat, hi: nat, select: int): set<int>
    requires Parents(tree, par) && lo <= hi <= |tree|
  {
    set m | 0 <= m < |tree| && LeftBy(tree, par, lo, hi, select, m)
  }

  ghost predicate LeftBy(tree: Tree, par: seq<int>, lo: nat, hi: nat, select: int, m: nat)
    requires Parents(tree, par) && lo <= hi <= |tree| && m < |tree|
  {
    exists c :: lo <= c < hi && LeftAt(tree, par, c, select, m)
  }

  ghost predicate LeftAt(tree: Tree, par: seq<int>, c: nat, select: int, m: nat)
    requires Parents(tree, par) && c < |tree| && m < |tree|
  {
    GroupSize(tree, c, select) < select && Under(par, c, m) && OpenPath(tree, par, c, m, select)
  }

  /** A path that goes down through child `c` is open when `c` closes nothing and the rest is open. */
  lemma PathThrough(tree: Tree, par: seq<int>, id: nat, c: nat, m: nat, select: int)
    requires Parents(tree, par) && id < |tree| && c < |tree| && m < |tree| && par[c] == id && Under(par, c, m)
    ensures OpenPath(tree, par, id, m, select) <==> LeftAt(tree, par, c, select, m)
  {
    assert Under(par, id, c) && Under(par, c, c);
    if OpenPath(tree, par, id, m, select) {
      forall a | 0 <= a < |tree| && a != c && Under(par, c, a) && Under(par, a, m)
        ensures GroupSize(tree, a, select) < select
      {
        UnderTransitive(tree, par, id, c, a);
        UnderOrder(tree, par, c, a);
      }
    }
    if LeftAt(tree, par, c, select, m) {
      forall a | 0 <= a < |tree| && a != id && Under(par, id, a) && Under(par, a, m)
        ensures GroupSize(tree, a, select) < select
      {
        var d := UnderChild(tree, par, id, a);
        UnderTransitive(tree, par, d, a, m);
        if d != c {
          SiblingsDisjoint(tree, par, c, d, m);
        }
      }
    }
  }

  /** `childrenSize` counts the node's group: what is at or below it and not cut off by a closing node in between. */
  lemma {:induction false} GroupCount(tree: Tree, par: seq<int>, id: nat, select: int)
    requires Parents(tree, par) && id < |tree|
    ensures GroupSize(tree, id, select) == |GroupNodes(tree, par, id, select)|
    decreases |tree| - id, 1, 0
  {
    if IsLeaf(tree, id) {
      forall m: int
        ensures m in GroupNodes(tree, par, id, select) <==> m == id
      {
        LeafAlone(tree, par, id, select, m);
      }
      assert GroupNodes(tree, par, id, select) == {id as int};
    } else {
      var lo, hi := tree[id].childStart, tree[id].childEnd;
      ChildrenOfNode(tree, par, id);
      LeftCount(tree, par, id, lo, hi, select);
      forall m: int
        ensures m in GroupNodes(tree, par, id, select) <==> m == id || m in LeftOver(tree, par, lo, hi, select)
        ensures !(m == id && m in LeftOver(tree, par, lo, hi, select))
      {
        GroupSplit(tree, par, id, select, m);
      }
      AddedSize(LeftOver(tree, par, lo, hi, select), GroupNodes(tree, par, id, select), id as int);
    }
  }

  lemma ChildrenOfNode(tree: Tree, par: seq<int>, id: nat)
    requires Parents(tree, par) && id < |tree| && !IsLeaf(tree, id)
    ensures forall c :: tree[id].childStart <= c < tree[id].childEnd ==> par[c] == id
  {
    forall c | tree[id].childStart <= c < tree[id].childEnd
      ensures par[c] == id
    {
      assert IsChild(tree, id, c);
    }
  }

  lemma OwnPath(tree: Tree, par: seq<int>, id: nat, select: int)
    requires Parents(tree, par) && id < |tree|
    ensures OpenPath(tree, par, id, id, select)
  {
    forall a | 0 <= a < |tree| && a != id && Under(par, id, a) && Under(par, a, id)
      ensures false
    {
      UnderOrder(tree, par, id, a);
      UnderOrder(tree, par, a, id);
    }
  }

  lemma LeafAlone(tree: Tree, par: seq<int>, id: nat, select: int, m: int)
    requires Parents(tree, par) && id < |tree| && IsLeaf(tree, id)
    ensures m in GroupNodes(tree, par, id, select) <==> m == id
  {
    OwnPath(tree, par, id, select);
    if 0 <= m < |tree| && m != id && Under(par, id, m) {
      var c := UnderChild(tree, par, id, m);
    }
  }

  lemma GroupSplit(tree: Tree, par: seq<int>, id: nat, select: int, m: int)
    requires Parents(tree, par) && id < |tree| && !IsLeaf(tree, id)
    ensures var left := LeftOver(tree, par, tree[id].childStart, tree[id].childEnd, select);
            (m in GroupNodes(tree, par, id, select) <==> m == id || m in left) && !(m == id && m in left)
  {
    var lo, hi := tree[id].childStart, tree[id].childEnd;
    ChildrenOfNode(tree, par, id);
    OwnPath(tree, par, id, select);
    if 0 <= m < |tree| {
      if m != id && Under(par, id, m) {
        var c := UnderChild(tree, par, id, m);
        PathThrough(tree, par, id, c, m, select);
      }
      if LeftBy(tree, par, lo, hi, select, m) {
        var c :| lo <= c < hi && LeftAt(tree, par, c, select, m);
        PathThrough(tree, par, id, c, m, select);
        assert Under(par, id, c);
        UnderTransitive(tree, par, id, c, m);
        UnderOrder(tree, par, c, m);
      }
    }
  }

  lemma LeftStep(tree: Tree, par: seq<int>, n: nat, lo: nat, hi: nat, select: int, m: nat)
    requires Parents(tree, par) && n < |tree| && lo < hi <= |tree| && m < |tree|
    requires forall c :: lo <= c < hi ==> par[c] == n
    ensures LeftBy(tree, par, lo, hi, select, m) <==>
      LeftBy(tree, par, lo, hi - 1, select, m) || LeftAt(tree, par, hi - 1, select, m)
    ensures !(LeftBy(tree, par, lo, hi - 1, select, m) && LeftAt(tree, par, hi - 1, select, m))
  {
    forall c | lo <= c < hi - 1 && LeftAt(tree, par, c, select, m)
      ensures !LeftAt(tree, par, hi - 1, select, m)
    {
      SiblingsDisjoint(tree, par, c, hi - 1, m);
    }
  }

  ghost function LastLeft(tree: Tree, par: seq<int>, c: nat, select: int): set<int>
    requires Parents(tree, par) && c < |tree|
  {
    set m | 0 <= m < |tree| && LeftAt(tree, par, c, select, m)
  }

  lemma LastLeftSize(tree: Tree, par: seq<int>, c: nat, select: int)
    requires Parents(tree, par) && c < |tree|
    requires GroupSize(tree, c, select) == |GroupNodes(tree, par, c, select)|
    ensures |LastLeft(tree, par, c, select)| == Residual(tree, c, select)
  {
    if GroupSize(tree, c, select) >= select {
      assert LastLeft(tree, par, c, select) == {};
    } else {
      assert LastLeft(tree, par, c, select) == GroupNodes(tree, par, c, select);
    }
  }

  lemma LeftMore(tree: Tree, par: seq<int>, n: nat, lo: nat, hi: nat, select: int)
    requires Parents(tree, par) && n < |tree| && lo < hi <= |tree|
    requires forall c :: lo <= c < hi ==> par[c] == n
    ensures |LeftOver(tree, par, lo, hi, select)| ==
      |LeftOver(tree, par, lo, hi - 1, select)| + |LastLeft(tree, par, hi - 1, select)|
  {
    forall m: int
      ensures m in LeftOver(tree, par, lo, hi, select) <==>
        m in LeftOver(tree, par, lo, hi - 1, select) + LastLeft(tree, par, hi - 1, select)
      ensures !(m in LeftOver(tree, par, lo, hi - 1, select) && m in LastLeft(tree, par, hi - 1, select))
    {
      if 0 <= m < |tree| {
        LeftStep(tree, par, n, lo, hi, select, m);
      }
    }
    UnionSize(LeftOver(tree, par, lo, hi, select), LeftOver(tree, par, lo, hi - 1, select),
      LastLeft(tree, par, hi - 1, select));
  }

  lemma {:induction false} LeftCount(tree: Tree, par: seq<int>, n: nat, lo: nat, hi: nat, select: int)
    requires Parents(tree, par) && n < |tree| && n < lo <= hi <= |tree|
    requires forall c :: lo <= c < hi ==> par[c] == n
    ensures ResidualsIn(tree, lo, hi, select) == |LeftOver(tree, par, lo, hi, select)|
    decreases |tree| - lo, 2, hi - lo
  {
    if lo < hi {
      LeftCount(tree, par, n, lo, hi - 1, select);
      GroupCount(tree, par, hi - 1, select);
      LastLeftSize(tree, par, hi - 1, select);
      MoreResiduals(tree, lo, hi - 1, select);
      LeftMore(tree, par, n, lo, hi, select);
    } else {
      assert LeftOver(tree, par, lo, hi, select) == {};
    }
  }

  // ----- the order -----

  /** `a` is closed before `b`: it lies below it, or in an earlier branch. */
  ghost predicate ClosedBefore(tree: Tree, par: seq<int>, a: nat, b: nat)
    requires Parents(tree, par) && a < |tree| && b < |tree|
  {
    || (a != b && Under(par, b, a))
    || (exists c, d :: 0 <= c < d < |tree| && par[c] == par[d] >= 0 && Under(par, c, a) && Under(par, d, b))
  }

  ghost predicate InClosingOrder(tree: Tree, par: seq<int>, groups: seq<Group>)
    requires Parents(tree, par)
  {
    && (forall i :: 0 <= i < |groups| ==> groups[i].node < |tree|)
    && (forall i, j :: 0 <= i < j < |groups| ==> ClosedBefore(tree, par, groups[i].node, groups[j].node))
  }

  lemma OrderTogether(tree: Tree, par: seq<int>, a: seq<Group>, b: seq<Group>)
    requires Parents(tree, par) && InClosingOrder(tree, par, a) && InClosingOrder(tree, par, b)
    requires forall i, j :: 0 <= i < |a| && 0 <= j < |b| ==> ClosedBefore(tree, par, a[i].node, b[j].node)
    ensures InClosingOrder(tree, par, a + b)
  {
    var s := a + b;
    forall i, j | 0 <= i < j < |s|
      ensures ClosedBefore(tree, par, s[i].node, s[j].node)
    {
      if i >= |a| {
        assert s[i] == b[i - |a|] && s[j] == b[j - |a|];
      } else if j >= |a| {
        assert s[i] == a[i] && s[j] == b[j - |a|];
      }
    }
  }

  /** The groups come in the order in which the recursion leaves their nodes. */
  lemma {:induction false} GroupsInOrder(tree: Tree, par: seq<int>, id: nat, select: int)
    requires Parents(tree, par) && id < |tree|
    ensures InClosingOrder(tree, par, Groups(tree, id, select))
    decreases |tree| - id, 1, 0
  {
    if !IsLeaf(tree, id) {
      var lo, hi := tree[id].childStart, tree[id].childEnd;
      ChildrenOfNode(tree, par, id);
      BranchesInOrder(tree, par, id, lo, hi, select);
      var below, own := GroupsIn(tree, lo, hi, select), OwnGroup(tree, id, select);
      forall i, j | 0 <= i < |below| && 0 <= j < |own|
        ensures ClosedBefore(tree, par, below[i].node, own[j].node)
      {
        var c := BranchOf(tree, par, lo, hi, select, below[i]);
        assert Under(par, id, c);
        UnderTransitive(tree, par, id, c, below[i].node);
        UnderOrder(tree, par, c, below[i].node);
      }
      OrderTogether(tree, par, below, own);
    }
    GroupsSplit(tree, id, select);
  }

  lemma BranchOf(tree: Tree, par: seq<int>, lo: nat, hi: nat, select: int, g: Group) returns (c: nat)
    requires Parents(tree, par) && lo <= hi <= |tree| && g in GroupsIn(tree, lo, hi, select)
    ensures lo <= c < hi && Closes(tree, par, c, select, g)
  {
    GroupsInMembers(tree, par, lo, hi, select, g);
    c :| lo <= c < hi && Closes(tree, par, c, select, g);
  }

  lemma {:induction false} BranchesInOrder(tree: Tree, par: seq<int>, n: nat, lo: nat, hi: nat, select: int)
    requires Parents(tree, par) && n < |tree| && n < lo <= hi <= |tree|
    requires forall c :: lo <= c < hi ==> par[c] == n
    ensures InClosingOrder(tree, par, GroupsIn(tree, lo, hi, select))
    decreases |tree| - lo, 2, hi - lo
  {
    if lo < hi {
      var d := hi - 1;
      BranchesInOrder(tree, par, n, lo, d, select);
      GroupsInOrder(tree, par, d, select);
      var a, b := GroupsIn(tree, lo, d, select), Groups(tree, d, select);
      forall i, j | 0 <= i < |a| && 0 <= j < |b|
        ensures ClosedBefore(tree, par, a[i].node, b[j].node)
      {
        var c := BranchOf(tree, par, lo, d, select, a[i]);
        GroupMembers(tree, par, d, select, b[j]);
      }
      OrderTogether(tree, par, a, b);
      MoreGroups(tree, lo, d, select);
    }
  }

  // ----- what a closing node adds -----

  /** `s` lists the children of `id` that leave something over, each once with what it leaves, the largest first. */
  ghost predicate ByRemainder(tree: Tree, id: nat, select: int, s: seq<ChildSize>)
    requires WellFormed(tree) && id < |tree|
  {
    && (forall i :: 0 <= i < |s| ==>
      IsChild(tree, id, s[i].node) && s[i].size == Residual(tree, s[i].node, select) > 0)
    && (forall c :: 0 <= c < |tree| && IsChild(tree, id, c) && Residual(tree, c, select) > 0 ==>
      ChildSize(c, Residual(tree, c, select)) in s)
    && (forall i, j :: 0 <= i < j < |s| ==> s[i].node != s[j].node && s[i].size >= s[j].size)
  }

  /** `n` of `count` children: one for every `factor` nodes of the group, begun or whole, or all of them. */
  ghost predicate SplitsOff(n: nat, count: nat, size: nat, factor: int) {
    n <= count && (n > 0 ==> (n - 1) * factor < size) && (n < count ==> n * factor >= size)
  }

  lemma CeilDivFacts(size: nat, factor: int)
    requires factor > 0
    ensures CeilDiv(size, factor) * factor >= size
    ensures CeilDiv(size, factor) > 0 ==> (CeilDiv(size, factor) - 1) * factor < size
  {
    var q := CeilDiv(size, factor);
    assert q * factor <= size + factor - 1 < q * factor + factor;
    assert (q - 1) * factor == q * factor - factor;
  }

  lemma SplitSizeLaw(tree: Tree, id: nat, t: Thresholds)
    requires WellFormed(tree) && id < |tree| && t.factor > 0
    ensures SplitsOff(SplitSize(tree, id, t), |SortedChildren(tree, id, t.select)|, GroupSize(tree, id, t.select),
      t.factor)
  {
    CeilDivFacts(GroupSize(tree, id, t.select), t.factor);
    FewerSplitOff(SplitSize(tree, id, t), CeilDiv(GroupSize(tree, id, t.select), t.factor),
      GroupSize(tree, id, t.select), t.factor);
  }

  lemma FewerSplitOff(n: nat, q: nat, size: nat, factor: int)
    requires factor > 0 && n <= q && (q > 0 ==> (q - 1) * factor < size)
    ensures n > 0 ==> (n - 1) * factor < size
  {
    if n > 0 {
      MulMono(n - 1, q - 1, factor);
    }
  }

  lemma {:induction false} RemainingLaw(tree: Tree, lo: nat, hi: nat, select: int)
    requires WellFormed(tree) && lo <= hi <= |tree|
    ensures forall x :: x in Remaining(tree, lo, hi, select) <==>
      lo <= x.node < hi && x.size == Residual(tree, x.node, select) > 0
    ensures NoDuplicates(Remaining(tree, lo, hi, select))
    decreases hi
  {
    if lo < hi {
      RemainingLaw(tree, lo, hi - 1, select);
      MoreRemaining(tree, lo, hi - 1, select);
      var before := Remaining(tree, lo, hi - 1, select);
      assert forall i :: 0 <= i < |before| ==> before[i] in before;
    }
  }

  lemma SortedMembers(tree: Tree, id: nat, select: int, x: ChildSize)
    requires WellFormed(tree) && id < |tree|
    ensures x in SortedChildren(tree, id, select) <==>
      x.node < |tree| && IsChild(tree, id, x.node) && x.size == Residual(tree, x.node, select) > 0
  {
    var s, children := SortedChildren(tree, id, select), ChildrenOf(tree, id, select);
    SortByCorrect(children, LargerFirst);
    if !IsLeaf(tree, id) {
      RemainingLaw(tree, tree[id].childStart, tree[id].childEnd, select);
    }
    assert x in multiset(s) <==> x in multiset(children);
  }

  lemma SortedOnce(tree: Tree, id: nat, select: int)
    requires WellFormed(tree) && id < |tree|
    ensures NoDuplicates(SortedChildren(tree, id, select)) && Sorted(SortedChildren(tree, id, select), LargerFirst)
  {
    var children := ChildrenOf(tree, id, select);
    SortByCorrect(children, LargerFirst);
    if !IsLeaf(tree, id) {
      RemainingLaw(tree, tree[id].childStart, tree[id].childEnd, select);
    }
    PermutationNoDuplicates(children, SortedChildren(tree, id, select));
  }

  lemma SortedChildrenLaw(tree: Tree, id: nat, select: int)
    requires WellFormed(tree) && id < |tree|
    ensures ByRemainder(tree, id, select, SortedChildren(tree, id, select))
  {
    var s := SortedChildren(tree, id, select);
    forall x
      ensures x in s <==> x.node < |tree| && IsChild(tree, id, x.node) && x.size == Residual(tree, x.node, select) > 0
    {
      SortedMembers(tree, id, select, x);
    }
    assert forall i :: 0 <= i < |s| ==> s[i] in s;
    SortedOnce(tree, id, select);
    forall i, j | 0 <= i < j < |s|
      ensures s[i].node != s[j].node && s[i].size >= s[j].size
    {
      assert LargerFirst(s[i], s[j]) && s[i] != s[j];
    }
  }

  /** `v` is the node's own center, or that of one of the children its split takes. */
  ghost predicate Contributes(tree: Tree, g: Group, t: Thresholds, v: int)
    requires WellFormed(tree) && g.node < |tree| && t.factor > 0
  {
    || (v == tree[g.node].centerid && v < tree[0].centerid)
    || (g.size > t.split && TakenChild(tree, g.node, t, v))
  }

  ghost predicate TakenChild(tree: Tree, id: nat, t: Thresholds, v: int)
    requires WellFormed(tree) && id < |tree| && t.factor > 0
  {
    exists i :: 0 <= i < SplitSize(tree, id, t) &&
      v == CenterOf(tree, SortedChildren(tree, id, t.select)[i])
  }

  lemma TakenIff(tree: Tree, id: nat, t: Thresholds, v: int)
    requires WellFormed(tree) && id < |tree| && t.factor > 0
    ensures v in CentersOf(tree, SortedChildren(tree, id, t.select)[..SplitSize(tree, id, t)]) <==>
      TakenChild(tree, id, t, v)
  {
    var s, n := SortedChildren(tree, id, t.select), SplitSize(tree, id, t);
    var taken := CentersOf(tree, s[..n]);
    assert |taken| == n && forall i :: 0 <= i < n ==> taken[i] == CenterOf(tree, s[i]);
  }

  lemma PushedIff(tree: Tree, g: Group, t: Thresholds, v: int)
    requires t.factor > 0 && Real(tree, g, t.select)
    ensures v in Pusher(tree, t)(g) <==> Contributes(tree, g, t, v)
  {
    TakenIff(tree, g.node, t, v);
  }

  lemma {:induction false} FlatMember<T>(f: T -> seq<int>, s: seq<T>, n: nat, v: int)
    requires n <= |s|
    ensures v in Flat(f, s, n) <==> exists i :: 0 <= i < n && v in f(s[i])
    decreases n
  {
    if n > 0 {
      FlatMember(f, s, n - 1, v);
    }
  }

  lemma SelectedFrom(tree: Tree, par: seq<int>, id: nat, t: Thresholds, v: int) returns (g: Group)
    requires Parents(tree, par) && id < |tree| && t.factor > 0 && v in Selection(tree, id, t)
    ensures Closes(tree, par, id, t.select, g) && v in Pusher(tree, t)(g)
  {
    var groups := Groups(tree, id, t.select);
    SelectionByGroups(tree, id, t);
    FlatMember(Pusher(tree, t), groups, |groups|, v);
    var i :| 0 <= i < |groups| && v in Pusher(tree, t)(groups[i]);
    g := groups[i];
    GroupMembers(tree, par, id, t.select, g);
  }

  lemma PushedIsSelected(tree: Tree, par: seq<int>, id: nat, t: Thresholds, g: Group, v: int)
    requires Parents(tree, par) && id < |tree| && t.factor > 0
    requires Closes(tree, par, id, t.select, g) && v in Pusher(tree, t)(g)
    ensures v in Selection(tree, id, t)
  {
    var groups := Groups(tree, id, t.select);
    SelectionByGroups(tree, id, t);
    FlatMember(Pusher(tree, t), groups, |groups|, v);
    GroupMembers(tree, par, id, t.select, g);
    var i :| 0 <= i < |groups| && groups[i] == g;
    assert v in Pusher(tree, t)(groups[i]);
  }

  /** What is selected at or below a node: what one of the closing nodes there adds. */
  lemma SelectionIff(tree: Tree, par: seq<int>, id: nat, t: Thresholds, v: int)
    requires Parents(tree, par) && id < |tree| && t.factor > 0
    ensures v in Selection(tree, id, t) <==>
      exists g :: Closes(tree, par, id, t.select, g) && Contributes(tree, g, t, v)
  {
    if v in Selection(tree, id, t) {
      var g := SelectedFrom(tree, par, id, t, v);
      PushedIff(tree, g, t, v);
    }
    if g :| Closes(tree, par, id, t.select, g) && Contributes(tree, g, t, v) {
      PushedIff(tree, g, t, v);
      PushedIsSelected(tree, par, id, t, g, v);
    }
  }

  /**
    `piece` is what group `g` adds to the list: the center of its node when it is below the root's, then, when the group
    is bigger than the split threshold, the centers of its largest remaining children.
   */
  ghost predicate IsPiece(tree: Tree, g: Group, t: Thresholds, piece: seq<int>) {
    && WellFormed(tree) && g.node < |tree|
    && (exists s, n ::
          ByRemainder(tree, g.node, t.select, s) && SplitsOff(n, |s|, g.size, t.factor)
          && PieceOf(tree, g, t, s, n, piece))
  }

  ghost predicate PieceOf(tree: Tree, g: Group, t: Thresholds, s: seq<ChildSize>, n: nat, piece: seq<int>)
    requires WellFormed(tree) && g.node < |tree| && n <= |s| && forall i :: 0 <= i < |s| ==> s[i].node < |tree|
  {
    var own := if tree[g.node].centerid < tree[0].centerid then 1 else 0;
    var taken := if g.size > t.split then n else 0;
    && |piece| == own + taken
    && (own == 1 ==> piece[0] == tree[g.node].centerid)
    && (forall i :: 0 <= i < taken ==> piece[own + i] == tree[s[i].node].centerid)
  }

  lemma PushedIs(tree: Tree, g: Group, t: Thresholds)
    requires t.factor > 0 && Real(tree, g, t.select)
    requires forall c :: c in SortedChildren(tree, g.node, t.select) ==> c.node < |tree|
    ensures PieceOf(tree, g, t, SortedChildren(tree, g.node, t.select), SplitSize(tree, g.node, t), Pusher(tree, t)(g))
  {
    var s, n := SortedChildren(tree, g.node, t.select), SplitSize(tree, g.node, t);
    var taken := CentersOf(tree, s[..n]);
    assert |taken| == n && forall i :: 0 <= i < n ==> taken[i] == tree[s[i].node].centerid;
  }

  lemma PushedIsPiece(tree: Tree, g: Group, t: Thresholds)
    requires t.factor > 0 && Real(tree, g, t.select)
    ensures IsPiece(tree, g, t, Pusher(tree, t)(g))
  {
    SortedChildrenLaw(tree, g.node, t.select);
    SplitSizeLaw(tree, g.node, t);
    forall c | c in SortedChildren(tree, g.node, t.select)
      ensures c.node < |tree|
    {
      SortedMembers(tree, g.node, t.select, c);
    }
    PushedIs(tree, g, t);
  }

  /** Pieces put one behind the other. */
  function Joined(pieces: seq<seq<int>>): seq<int> {
    if pieces == [] then [] else Joined(pieces[..|pieces| - 1]) + pieces[|pieces| - 1]
  }

  lemma {:induction false} FlatIsJoined<T>(f: T -> seq<int>, s: seq<T>, n: nat, pieces: seq<seq<int>>)
    requires n == |pieces| <= |s| && forall i :: 0 <= i < n ==> pieces[i] == f(s[i])
    ensures Flat(f, s, n) == Joined(pieces)
    decreases n
  {
    if n > 0 {
      FlatIsJoined(f, s, n - 1, pieces[..n - 1]);
    }
  }

  /** The list falls into one piece for every closing node, in the order in which the nodes are closed. */
  lemma SelectionPieces(tree: Tree, par: seq<int>, id: nat, t: Thresholds)
    returns (groups: seq<Group>, pieces: seq<seq<int>>)
    requires Parents(tree, par) && id < |tree| && t.factor > 0
    ensures (forall g :: g in groups <==> Closes(tree, par, id, t.select, g)) && InClosingOrder(tree, par, groups)
    ensures |pieces| == |groups| && forall i :: 0 <= i < |groups| ==> IsPiece(tree, groups[i], t, pieces[i])
    ensures Selection(tree, id, t) == Joined(pieces)
  {
    groups := Groups(tree, id, t.select);
    var f := Pusher(tree, t);
    pieces := seq(|groups|, i requires 0 <= i < |groups| => f(groups[i]));
    SelectionByGroups(tree, id, t);
    FlatIsJoined(f, groups, |groups|, pieces);
    GroupsInOrder(tree, par, id, t.select);
    GroupsReal(tree, par, id, t.select);
    forall g: Group
      ensures g in groups <==> Closes(tree, par, id, t.select, g)
    {
      GroupMembers(tree, par, id, t.select, g);
    }
    forall i | 0 <= i < |groups|
      ensures IsPiece(tree, groups[i], t, pieces[i])
    {
      assert Real(tree, groups[i], t.select);
      PushedIsPiece(tree, groups[i], t);
    }
  }
}
