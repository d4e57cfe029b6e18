/** What the groups of the dynamic selection say about the list it returns. */
module HeadGroups {
  import opened Sets
  import opened BKTree
  import opened HeadDynamic

  /** Node `g.node` at or below `n` closes a group of size `g.size`. */
  ghost predicate Closes(tree: Tree, par: seq<int>, n: nat, select: int, g: Group)
    requires Parents(tree, par) && n < |tree|
  {
    g.node < |tree| && Under(par, n, g.node) && g.size == GroupSize(tree, g.node, select) && g.size >= select
  }

  ghost predicate ClosesIn(tree: Tree, par: seq<int>, lo: nat, hi: nat, select: int, g: Group)
    requires Parents(tree, par) && lo <= hi <= |tree|
  {
    exists c :: lo <= c < hi && Closes(tree, par, c, select, g)
  }

  /** The groups are exactly those of the nodes whose group reaches the threshold. */
  lemma {:induction false} GroupMembers(tree: Tree, par: seq<int>, n: nat, select: int, g: Group)
    requires Parents(tree, par) && n < |tree|
    ensures g in Groups(tree, n, select) <==> Closes(tree, par, n, select, g)
    decreases |tree| - n, 1, 0
  {
    if g.node < |tree| && g.node != n && Under(par, n, g.node) {
      var c := UnderChild(tree, par, n, g.node);
      assert Closes(tree, par, n, select, g) ==> Closes(tree, par, c, select, g);
    }
    if !IsLeaf(tree, n) {
      var lo, hi := tree[n].childStart, tree[n].childEnd;
      GroupsInMembers(tree, par, lo, hi, select, g);
      if c :| lo <= c < hi && Closes(tree, par, c, select, g) {
        assert IsChild(tree, n, c) && Under(par, n, c);
        UnderTransitive(tree, par, n, c, g.node);
      }
    }
  }

  lemma {:induction false} GroupsInMembers(tree: Tree, par: seq<int>, lo: nat, hi: nat, select: int, g: Group)
    requires Parents(tree, par) && lo <= hi <= |tree|
    ensures g in GroupsIn(tree, lo, hi, select) <==> ClosesIn(tree, par, lo, hi, select, g)
    decreases |tree| - lo, 2, hi - lo
  {
    if lo < hi {
      GroupsInMembers(tree, par, lo, hi - 1, select, g);
      GroupMembers(tree, par, hi - 1, select, g);
      ClosesMore(tree, par, lo, hi - 1, select, g);
      MoreGroups(tree, lo, hi - 1, select);
    }
  }

  lemma ClosesMore(tree: Tree, par: seq<int>, lo: nat, i: nat, select: int, g: Group)
    requires Parents(tree, par) && lo <= i < |tree|
    ensures ClosesIn(tree, par, lo, i + 1, select, g) <==>
      ClosesIn(tree, par, lo, i, select, g) || Closes(tree, par, i, select, g)
  {
    if Closes(tree, par, i, select, g) {
      assert lo <= i < i + 1;
    }
  }

  ghost predicate NodesDiffer(groups: seq<Group>) {
    forall i, j :: 0 <= i < j < |groups| ==> groups[i].node != groups[j].node
  }

  lemma DifferTogether(a: seq<Group>, b: seq<Group>)
    requires NodesDiffer(a) && NodesDiffer(b)
    requires forall g, h :: g in a && h in b ==> g.node != h.node
    ensures NodesDiffer(a + b)
  {
    assert forall i :: 0 <= i < |a| ==> a[i] in a;
    assert forall i :: 0 <= i < |b| ==> b[i] in b;
  }

  /** No node closes two groups. */
  lemma {:induction false} GroupsDiffer(tree: Tree, par: seq<int>, n: nat, select: int)
    requires Parents(tree, par) && n < |tree|
    ensures NodesDiffer(Groups(tree, n, select))
    decreases |tree| - n, 1, 0
  {
    if !IsLeaf(tree, n) {
      var lo, hi := tree[n].childStart, tree[n].childEnd;
      forall c | lo <= c < hi
        ensures par[c] == n
      {
        assert IsChild(tree, n, c);
      }
      GroupsInDiffer(tree, par, n, lo, hi, select);
      forall g | g in GroupsIn(tree, lo, hi, select)
        ensures g.node != n
      {
        GroupsInMembers(tree, par, lo, hi, select, g);
        var c :| lo <= c < hi && Closes(tree, par, c, select, g);
        UnderOrder(tree, par, c, g.node);
      }
      DifferTogether(GroupsIn(tree, lo, hi, select), OwnGroup(tree, n, select));
    }
  }

  lemma {:induction false} GroupsInDiffer(tree: Tree, par: seq<int>, n: nat, lo: nat, hi: nat, select: int)
    requires Parents(tree, par) && n < |tree| && n < lo <= hi <= |tree|
    requires forall c :: lo <= c < hi ==> par[c] == n
    ensures NodesDiffer(GroupsIn(tree, lo, hi, select))
    decreases |tree| - lo, 2, hi - lo
  {
    if lo < hi {
      GroupsInDiffer(tree, par, n, lo, hi - 1, select);
      GroupsDiffer(tree, par, hi - 1, select);
      ElderDiffer(tree, par, n, lo, hi - 1, select);
      MoreGroups(tree, lo, hi - 1, select);
      DifferTogether(GroupsIn(tree, lo, hi - 1, select), Groups(tree, hi - 1, select));
    }
  }

  lemma ElderDiffer(tree: Tree, par: seq<int>, n: nat, lo: nat, i: nat, select: int)
    requires Parents(tree, par) && n < |tree| && n < lo <= i < |tree|
    requires forall c :: lo <= c <= i ==> par[c] == n
    ensures forall g, h :: g in GroupsIn(tree, lo, i, select) && h in Groups(tree, i, select) ==> g.node != h.node
  {
    forall g, h | g in GroupsIn(tree, lo, i, select) && h in Groups(tree, i, select)
      ensures g.node != h.node
    {
      GroupsInMembers(tree, par, lo, i, select, g);
      GroupMembers(tree, par, i, select, h);
      var c :| lo <= c < i && Closes(tree, par, c, select, g);
      if g.node == h.node {
        SiblingsDisjoint(tree, par, c, i, g.node);
      }
    }
  }

  // ----- how much is selected -----

  lemma CeilDivBound(a: nat, f: int)
    requires f > 0
    ensures f * CeilDiv(a, f) <= a + f - 1
  {
  }

  lemma MulMono(a: int, b: int, c: int)
    requires a <= b && c >= 0
    ensures c * a <= c * b
  {
  }

  lemma PushedLength(tree: Tree, id: nat, t: Thresholds)
    requires WellFormed(tree) && id < |tree| && t.factor > 0
    ensures |Pushed(tree, id, t)| <= 1 +
      if GroupSize(tree, id, t.select) > t.split then CeilDiv(GroupSize(tree, id, t.select), t.factor) else 0
  {
  }

  /** One group pushes its center and, when it is big, no more than `ceil(size / factor)` children. */
  lemma PushedBound(tree: Tree, g: Group, t: Thresholds)
    requires t.factor > 0 && Real(tree, g, t.select)
    ensures t.factor * |Pusher(tree, t)(g)| <= g.size + 2 * t.factor - 1
    ensures g.size <= t.split ==> |Pusher(tree, t)(g)| <= 1
  {
    PushedLength(tree, g.node, t);
    LengthBound(|Pusher(tree, t)(g)|, g.size, t.factor);
  }

  lemma LengthBound(length: nat, size: nat, factor: int)
    requires factor > 0 && size > 0 && length <= 1 + CeilDiv(size, factor)
    ensures factor * length <= size + 2 * factor - 1
  {
    CeilDivBound(size, factor);
    MulMono(length, 1 + CeilDiv(size, factor), factor);
    Distribute(factor, 1, CeilDiv(size, factor));
  }

  /** The group is what it says. */
  ghost predicate Real(tree: Tree, g: Group, select: int) {
    WellFormed(tree) && g.node < |tree| && g.size == GroupSize(tree, g.node, select) && g.size >= select
  }

  ghost predicate AllReal(tree: Tree, groups: seq<Group>, select: int) {
    WellFormed(tree) && forall i :: 0 <= i < |groups| ==> Real(tree, groups[i], select)
  }

  ghost predicate NoneSplit(groups: seq<Group>, split: int) {
    forall i :: 0 <= i < |groups| ==> groups[i].size <= split
  }

  lemma FlatLength<T>(f: T -> seq<int>, s: seq<T>, n: nat)
    requires 0 < n <= |s|
    ensures |Flat(f, s, n)| == |Flat(f, s, n - 1)| + |f(s[n - 1])|
  {
  }

  /** `f` gives group `g` no more than its size allows. */
  ghost predicate Modest(f: Group -> seq<int>, g: Group, factor: int, split: int) {
    factor * |f(g)| <= g.size + 2 * factor - 1 && (g.size <= split ==> |f(g)| <= 1)
  }

  ghost predicate AllModest(f: Group -> seq<int>, groups: seq<Group>, factor: int, split: int) {
    factor > 0 && forall i :: 0 <= i < |groups| ==> Modest(f, groups[i], factor, split)
  }

  lemma {:induction false} FlatBound(f: Group -> seq<int>, groups: seq<Group>, factor: int, split: int, n: nat)
    requires AllModest(f, groups, factor, split) && n <= |groups|
    ensures factor * |Flat(f, groups, n)| <= SizeOf(groups, n) + (2 * factor - 1) * n
    ensures NoneSplit(groups, split) ==> |Flat(f, groups, n)| <= n
    decreases n
  {
    if n > 0 {
      var g := groups[n - 1];
      FlatBound(f, groups, factor, split, n - 1);
      assert Modest(f, g, factor, split);
      FlatLength(f, groups, n);
      MoreBound(factor, |Flat(f, groups, n - 1)|, |f(g)|, SizeOf(groups, n - 1), g.size, n);
    }
  }

  lemma PushersModest(tree: Tree, groups: seq<Group>, t: Thresholds)
    requires t.factor > 0 && AllReal(tree, groups, t.select)
    ensures AllModest(Pusher(tree, t), groups, t.factor, t.split)
  {
    forall i | 0 <= i < |groups|
      ensures Modest(Pusher(tree, t), groups[i], t.factor, t.split)
    {
      assert Real(tree, groups[i], t.select);
      PushedBound(tree, groups[i], t);
    }
  }

  lemma MoreBound(factor: int, before: nat, own: nat, total: nat, size: nat, n: nat)
    requires factor > 0 && n > 0 && factor * before <= total + (2 * factor - 1) * (n - 1)
      && factor * own <= size + 2 * factor - 1
    ensures factor * (before + own) <= total + size + (2 * factor - 1) * n
  {
    Distribute(factor, before, own);
    Distribute(2 * factor - 1, n - 1, 1);
  }

  lemma Distribute(a: int, b: int, c: int)
    ensures a * (b + c) == a * b + a * c
  {
  }

  lemma GroupsReal(tree: Tree, par: seq<int>, id: nat, select: int)
    requires Parents(tree, par) && id < |tree|
    ensures AllReal(tree, Groups(tree, id, select), select)
  {
    var groups := Groups(tree, id, select);
    forall i | 0 <= i < |groups|
      ensures Real(tree, groups[i], select)
    {
      GroupMembers(tree, par, id, select, groups[i]);
    }
  }

  /**
    How long the list is that the recursion appends. Without splits a subtree yields at most one head for every
    `select` of its nodes; with splits at most `(select + 2 factor - 1) / (select factor)` heads a node.
   */
  lemma SelectionBound(tree: Tree, par: seq<int>, id: nat, t: Thresholds)
    requires Parents(tree, par) && id < |tree| && t.factor > 0 && t.select > 0
    ensures t.select * (t.factor * |Selection(tree, id, t)|) <= (t.select + 2 * t.factor - 1) * |Subtree(tree, par, id)|
    ensures NoneSplit(Groups(tree, id, t.select), t.split) ==>
      |Selection(tree, id, t)| * t.select <= |Subtree(tree, par, id)|
  {
    var groups := Groups(tree, id, t.select);
    SelectionByGroups(tree, id, t);
    GroupsReal(tree, par, id, t.select);
    PushersModest(tree, groups, t);
    Conservation(tree, par, id, t.select);
    GroupBounds(tree, par, id, t.select);
    ListBound(Pusher(tree, t), groups, t, |Subtree(tree, par, id)|);
  }

  lemma ListBound(f: Group -> seq<int>, groups: seq<Group>, t: Thresholds, nodes: nat)
    requires AllModest(f, groups, t.factor, t.split) && t.select > 0
    requires TotalSize(groups) <= nodes && |groups| * t.select <= nodes
    ensures t.select * (t.factor * |Flat(f, groups, |groups|)|) <= (t.select + 2 * t.factor - 1) * nodes
    ensures NoneSplit(groups, t.split) ==> |Flat(f, groups, |groups|)| * t.select <= nodes
  {
    var heads := |Flat(f, groups, |groups|)|;
    FlatBound(f, groups, t.factor, t.split, |groups|);
    Together(t.select, t.factor, heads, TotalSize(groups), |groups|, nodes);
    if NoneSplit(groups, t.split) {
      MulMono(heads, |groups|, t.select);
    }
  }

  lemma Together(select: nat, factor: int, heads: nat, total: nat, groups: nat, nodes: nat)
    requires factor > 0 && factor * heads <= total + (2 * factor - 1) * groups
    requires total <= nodes && groups * select <= nodes
    ensures select * (factor * heads) <= (select + 2 * factor - 1) * nodes
  {
    var k := 2 * factor - 1;
    MulMono(factor * heads, total + k * groups, select);
    Distribute(select, total, k * groups);
    MulMono(total, nodes, select);
    assert select * (k * groups) == k * (groups * select);
    MulMono(groups * select, nodes, k);
    assert (select + k) * nodes == select * nodes + k * nodes;
  }
}
