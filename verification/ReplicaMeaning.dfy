/** What `ApproximateRNG` leaves, cell by cell. */
module ReplicaMeaning {
  import opened ReplicaSelection
  import Sets

  ghost function Elements(s: seq<nat>): set<int> {
    set j | 0 <= j < |s| :: s[j]
  }

  lemma {:induction false} ElementsSize(s: seq<nat>)
    requires forall a, b :: 0 <= a < b < |s| ==> s[a] < s[b]
    ensures |Elements(s)| == |s|
  {
    if s != [] {
      var n := |s| - 1;
      ElementsSize(s[..n]);
      Sets.AddedSize(Elements(s[..n]), Elements(s), s[n]);
    }
  }

  /** The results of vector `f` that are kept in front of result `i`. */
  ghost function KeptBefore(x: Input, f: nat, i: nat): set<int>
    requires f < x.Count()
  {
    set j | 0 <= j < i && j in x.Selection(f)
  }

  lemma KeptBeforeIs(x: Input, f: nat, i: nat)
    requires f < x.Count() && i < |x.candidates[f]|
    ensures forall j: nat :: j < i ==> (j in x.Selection(f) <==> j in x.Kept(f, i))
    ensures |KeptBefore(x, f, i)| == |x.Kept(f, i)|
  {
    forall j: nat | j < i
      ensures j in x.Selection(f) <==> j in x.Kept(f, i)
    {
      x.KeptIff(f, |x.candidates[f]|, j);
      x.KeptIff(f, i, j);
    }
    x.KeptPairwise(f, i);
    ElementsSize(x.Kept(f, i));
    Sets.SameSize(Elements(x.Kept(f, i)), KeptBefore(x, f, i));
  }

  /** Result `i` is nearer to the vector than `factor` times its distance to every result kept in front of it. */
  ghost predicate Unshadowed(x: Input, f: nat, i: nat)
    requires f < x.Count() && i < |x.candidates[f]|
  {
    forall j: nat :: j < i && j in x.Selection(f) ==>
      x.candidates[f][i].dist < x.factor * x.dist(x.candidates[f][i].vid, x.candidates[f][j].vid)
  }

  lemma UnshadowedIff(x: Input, f: nat, i: nat)
    requires f < x.Count() && i < |x.candidates[f]|
    requires forall j: nat :: j < i ==> (j in x.Selection(f) <==> j in x.Kept(f, i))
    ensures Unshadowed(x, f, i) <==> forall j: nat :: j < i && j in x.Kept(f, i) ==> !x.Blocks(f, j, i)
  {
    forall j: nat | j < i
      ensures x.Blocks(f, j, i) <==>
        !(x.candidates[f][i].dist < x.factor * x.dist(x.candidates[f][i].vid, x.candidates[f][j].vid))
    {
    }
    if Unshadowed(x, f, i) {
      forall j: nat | j < i && j in x.Kept(f, i)
        ensures !x.Blocks(f, j, i)
      {
        assert j in x.Selection(f);
      }
    }
  }

  /**
    A result is kept exactly when no result up to it is missing, there is room left, and no result kept in front of
    it shadows it.
   */
  lemma SelectionIff(x: Input, f: nat, i: nat)
    requires f < x.Count() && i < |x.candidates[f]|
    ensures i in x.Selection(f) <==>
      && (forall j :: 0 <= j <= i ==> x.candidates[f][j].vid != -1)
      && |KeptBefore(x, f, i)| < x.replicaCount
      && Unshadowed(x, f, i)
  {
    x.KeptIff(f, |x.candidates[f]|, i);
    KeptBeforeIs(x, f, i);
    UnshadowedIff(x, f, i);
  }

  /** Replica `j` of vector `f` is the `j`-th of its kept results, at place `f * replicaCount + j`. */
  ghost predicate Holds(x: Input, now: seq<Edge>, start: seq<Edge>, f: nat, j: nat)
    requires f < x.Count() && |now| == |start|
  {
    var c := f * x.replicaCount + j;
    && 0 <= c < |now| && now[c].tonode == start[c].tonode
    && if j < |x.Selection(f)| && f !in x.except then
         now[c].node == x.candidates[f][x.Selection(f)[j]].vid
         && now[c].distance == x.candidates[f][x.Selection(f)[j]].dist
       else now[c] == start[c]
  }

  lemma FinalLaw(x: Input, now: seq<Edge>, start: seq<Edge>, f: nat, j: nat)
    requires IsFinal(x, now, start) && f < x.Count() && j < x.replicaCount
    ensures Holds(x, now, start, f, j)
  {
    assert now[Cell(x, f, j)] == FinalCell(x, f, j, start[Cell(x, f, j)]);
  }
}
