/** The CPU `ApproximateRNG`: every vector keeps, of its search results, those no earlier kept one shadows. */
module ReplicaSelection {

  datatype Candidate = Candidate(vid: int, dist: real)

  datatype Edge = Edge(node: int, distance: real, tonode: int)

  const NO_RESULT: int := -1

  /** `candidates[f]` are the search results for vector `f`; `dist` is the distance between two samples. */
  datatype Input = Input(candidates: seq<seq<Candidate>>, except: set<int>, replicaCount: nat, factor: real,
      dist: (int, int) -> real)
  {
    function Count(): nat {
      |candidates|
    }

    /** Result `j`, once kept, keeps result `i` out. */
    predicate Blocks(f: nat, j: nat, i: nat)
      requires f < Count() && j < |candidates[f]| && i < |candidates[f]|
    {
      factor * dist(candidates[f][i].vid, candidates[f][j].vid) <= candidates[f][i].dist
    }

    /** No result up to and including `i` is missing. */
    ghost predicate Live(f: nat, i: nat)
      requires f < Count() && i < |candidates[f]|
    {
      forall j :: 0 <= j <= i ==> candidates[f][j].vid != NO_RESULT
    }

    ghost predicate Free(f: nat, kept: seq<nat>, i: nat)
      requires f < Count() && i < |candidates[f]| && forall m :: 0 <= m < |kept| ==> kept[m] < |candidates[f]|
    {
      forall m :: 0 <= m < |kept| ==> !Blocks(f, kept[m], i)
    }

    /** The results kept among the first `n`, by their positions. */
    ghost function Kept(f: nat, n: nat): (kept: seq<nat>)
      requires f < Count() && n <= |candidates[f]|
      ensures |kept| <= replicaCount && forall m :: 0 <= m < |kept| ==> kept[m] < n
      decreases n
    {
      if n == 0 then []
      else
        var before := Kept(f, n - 1);
        if |before| < replicaCount && Live(f, n - 1) && Free(f, before, n - 1) then before + [n - 1] else before
    }

    ghost function Selection(f: nat): seq<nat>
      requires f < Count()
    {
      Kept(f, |candidates[f]|)
    }

    /** Is result `i` one to keep, given how the results in front of it fared? */
    ghost predicate Deserves(f: nat, i: nat)
      requires f < Count() && i < |candidates[f]|
    {
      Live(f, i) && |Kept(f, i)| < replicaCount && forall j: nat :: j < i && j in Kept(f, i) ==> !Blocks(f, j, i)
    }

    lemma {:induction false} KeptPrefix(f: nat, m: nat, n: nat)
      requires f < Count() && m <= n <= |candidates[f]|
      ensures Kept(f, m) <= Kept(f, n)
      decreases n
    {
      if m < n {
        KeptPrefix(f, m, n - 1);
      }
    }

    /** A result is kept exactly when it deserves it. */
    lemma {:induction false} KeptIff(f: nat, n: nat, i: nat)
      requires f < Count() && i < n <= |candidates[f]|
      ensures i in Kept(f, n) <==> Deserves(f, i)
      decreases n
    {
      if i < n - 1 {
        KeptIff(f, n - 1, i);
      } else {
        var before := Kept(f, i);
        assert i !in before;
        if Free(f, before, i) {
          forall j: nat | j < i && j in before
            ensures !Blocks(f, j, i)
          {
            var m :| 0 <= m < |before| && before[m] == j;
          }
        }
      }
    }

    /** Kept results come in search order, and no two of them are in each other's way. */
    lemma {:induction false} KeptPairwise(f: nat, n: nat)
      requires f < Count() && n <= |candidates[f]|
      ensures forall a, b :: 0 <= a < b < |Kept(f, n)| ==>
        Kept(f, n)[a] < Kept(f, n)[b] && !Blocks(f, Kept(f, n)[a], Kept(f, n)[b])
      decreases n
    {
      if n > 0 {
        KeptPairwise(f, n - 1);
      }
    }

    /** Once full, or past a missing result, nothing more is kept. */
    lemma {:induction false} KeptStops(f: nat, i: nat, n: nat)
      requires f < Count() && i <= n <= |candidates[f]|
      requires |Kept(f, i)| == replicaCount || (i < |candidates[f]| && candidates[f][i].vid == NO_RESULT)
      ensures Kept(f, n) == Kept(f, i)
      decreases n
    {
      if i < n {
        KeptStops(f, i, n - 1);
        if candidates[f][i].vid == NO_RESULT {
          assert !Live(f, n - 1);
        }
      }
    }
  }

  /**
    What a vector ends up with: exactly the deserving results, at most `replicaCount`, in search order; each of them is
    nearer to the vector than `factor` times its distance to any that was kept before it.
   */
  lemma SelectionFacts(x: Input, f: nat)
    requires f < x.Count()
    ensures |x.Selection(f)| <= x.replicaCount
    ensures forall i: nat :: i < |x.candidates[f]| ==> (i in x.Selection(f) <==> x.Deserves(f, i))
    ensures forall a, b :: 0 <= a < b < |x.Selection(f)| ==>
      (x.Selection(f)[a] < x.Selection(f)[b] < |x.candidates[f]| &&
      x.factor * x.dist(x.candidates[f][x.Selection(f)[b]].vid,
        x.candidates[f][x.Selection(f)[a]].vid) > x.candidates[f][x.Selection(f)[b]].dist)
  {
    forall i: nat | i < |x.candidates[f]|
      ensures i in x.Selection(f) <==> x.Deserves(f, i)
    {
      x.KeptIff(f, |x.candidates[f]|, i);
    }
    x.KeptPairwise(f, |x.candidates[f]|);
  }

  // ----- the threads -----

  /** A thread: between vectors, at result `i` of a vector, or through. */
  datatype Worker = Idle | Busy(fullID: nat, i: nat, currReplicaCount: nat) | Finished

  function Weight(x: Input, w: Worker): nat {
    match w
    case Finished => 0
    case Idle => 1
    case Busy(f, i, _) => if f < x.Count() && i <= |x.candidates[f]| then 2 + |x.candidates[f]| - i else 2
  }

  function TotalWeight(x: Input, ws: seq<Worker>): nat {
    if ws == [] then 0 else TotalWeight(x, ws[..|ws| - 1]) + Weight(x, ws[|ws| - 1])
  }

  lemma {:induction false} WeightUpdate(x: Input, ws: seq<Worker>, t: nat, w: Worker)
    requires t < |ws|
    ensures TotalWeight(x, ws[t := w]) == TotalWeight(x, ws) - Weight(x, ws[t]) + Weight(x, w)
  {
    var n := |ws| - 1;
    if t == n {
      assert ws[t := w][..n] == ws[..n];
    } else {
      WeightUpdate(x, ws[..n], t, w);
      assert ws[t := w][..n] == ws[..n][t := w];
    }
  }

  lemma MulMono(a: nat, b: nat, c: nat)
    requires a <= b
    ensures a * c <= b * c
  {
  }

  /** `selectionOffset + j`. */
  function Cell(x: Input, f: nat, j: nat): (c: nat)
    requires f < x.Count() && j < x.replicaCount
    ensures c < x.Count() * x.replicaCount
  {
    MulMono(f + 1, x.Count(), x.replicaCount);
    f * x.replicaCount + j
  }

  /** The vectors' blocks do not overlap. */
  lemma CellsApart(x: Input, f: nat, j: nat, g: nat, l: nat)
    requires f < x.Count() && g < x.Count() && j < x.replicaCount && l < x.replicaCount && (f != g || j != l)
    ensures Cell(x, f, j) != Cell(x, g, l)
  {
    if f < g {
      MulMono(f + 1, g, x.replicaCount);
    } else if g < f {
      MulMono(g + 1, f, x.replicaCount);
    }
  }

  /** A kept result written over a cell: `tonode` is not touched. */
  function Overwritten(x: Input, f: nat, i: nat, cell: Edge): Edge
    requires f < x.Count() && i < |x.candidates[f]|
  {
    Edge(x.candidates[f][i].vid, x.candidates[f][i].dist, cell.tonode)
  }

  /** Cell `j` of vector `f`'s block when the first `n` results have been considered. */
  ghost predicate CellIs(x: Input, f: nat, j: nat, n: nat, now: seq<Edge>, start: seq<Edge>)
    requires f < x.Count() && j < x.replicaCount && n <= |x.candidates[f]|
      && |now| == |start| == x.Count() * x.replicaCount
  {
    now[Cell(x, f, j)] ==
      if j < |x.Kept(f, n)| then Overwritten(x, f, x.Kept(f, n)[j], start[Cell(x, f, j)]) else start[Cell(x, f, j)]
  }

  ghost predicate BlockIs(x: Input, f: nat, n: nat, now: seq<Edge>, start: seq<Edge>)
    requires f < x.Count() && n <= |x.candidates[f]| && |now| == |start| == x.Count() * x.replicaCount
  {
    forall j :: 0 <= j < x.replicaCount ==> CellIs(x, f, j, n, now, start)
  }

  ghost predicate Positions(x: Input, progress: seq<nat>) {
    |progress| == x.Count() && forall f :: 0 <= f < x.Count() ==> progress[f] <= |x.candidates[f]|
  }

  ghost predicate BlocksAre(x: Input, progress: seq<nat>, now: seq<Edge>, start: seq<Edge>)
    requires Positions(x, progress) && |now| == |start| == x.Count() * x.replicaCount
  {
    forall f :: 0 <= f < x.Count() ==> BlockIs(x, f, progress[f], now, start)
  }

  /** Considering one more result changes at most one cell, in the vector's own block. */
  lemma BlocksStep(x: Input, progress: seq<nat>, was: seq<Edge>, now: seq<Edge>, start: seq<Edge>, f: nat)
    requires Positions(x, progress) && |was| == |start| == x.Count() * x.replicaCount
      && BlocksAre(x, progress, was, start)
    requires f < x.Count() && progress[f] < |x.candidates[f]|
    requires |x.Kept(f, progress[f])| < x.replicaCount && Takes(x, f, progress[f], was, now)
    ensures Positions(x, progress[f := progress[f] + 1]) && BlocksAre(x, progress[f := progress[f] + 1], now, start)
  {
    var next := progress[f := progress[f] + 1];
    assert forall g :: 0 <= g < x.Count() ==> next[g] == if g == f then progress[g] + 1 else progress[g];
    forall g | 0 <= g < x.Count()
      ensures BlockIs(x, g, next[g], now, start)
    {
      assert BlockIs(x, g, progress[g], was, start);
      BlockStep(x, progress[f], was, now, start, f, g, progress[g]);
    }
  }

  /** The block of vector `g`, while vector `f` considers its result `i`. */
  lemma BlockStep(x: Input, i: nat, was: seq<Edge>, now: seq<Edge>, start: seq<Edge>, f: nat, g: nat, n: nat)
    requires |was| == |start| == x.Count() * x.replicaCount && g < x.Count() && n <= |x.candidates[g]|
    requires f < x.Count() && i < |x.candidates[f]| && (g == f ==> n == i) && BlockIs(x, g, n, was, start)
    requires |x.Kept(f, i)| < x.replicaCount && Takes(x, f, i, was, now)
    ensures BlockIs(x, g, if g == f then n + 1 else n, now, start)
  {
    var after := if g == f then n + 1 else n;
    forall j | 0 <= j < x.replicaCount
      ensures CellIs(x, g, j, after, now, start)
    {
      assert CellIs(x, g, j, n, was, start);
      CellStep(x, i, was, now, start, f, g, j, n);
    }
  }

  /** Result `i` of vector `f` takes the next cell if it is kept. */
  ghost predicate Takes(x: Input, f: nat, i: nat, was: seq<Edge>, now: seq<Edge>)
    requires f < x.Count() && i < |x.candidates[f]| && |x.Kept(f, i)| < x.replicaCount
      && |was| == x.Count() * x.replicaCount
  {
    var before, after := x.Kept(f, i), x.Kept(f, i + 1);
    now == if after == before then was else was[Cell(x, f, |before|) := Overwritten(x, f, i, was[Cell(x, f, |before|)])]
  }

  /** Cell `j` of vector `g`, while vector `f` considers its result `i`. */
  lemma CellStep(x: Input, i: nat, was: seq<Edge>, now: seq<Edge>, start: seq<Edge>, f: nat, g: nat, j: nat, n: nat)
    requires |was| == |start| == x.Count() * x.replicaCount && g < x.Count() && j < x.replicaCount
      && n <= |x.candidates[g]|
    requires f < x.Count() && i < |x.candidates[f]| && (g == f ==> n == i) && CellIs(x, g, j, n, was, start)
    requires |x.Kept(f, i)| < x.replicaCount && Takes(x, f, i, was, now)
    ensures CellIs(x, g, j, if g == f then n + 1 else n, now, start)
  {
    var kept := |x.Kept(f, i)|;
    if kept < x.replicaCount && (g != f || j != kept) {
      CellsApart(x, g, j, f, kept);
    }
  }

  // ----- who works on what -----

  /** No thread holds the vector. */
  const NOBODY: int := -1

  /** Untaken and excepted vectors are untouched; a taken one is held by a thread or complete. */
  ghost predicate VectorOk(x: Input, f: nat, next: nat, ws: seq<Worker>, progress: seq<nat>, holder: seq<int>)
    requires f < x.Count() && Positions(x, progress) && |holder| == x.Count()
  {
    if f >= next || f in x.except then progress[f] == 0 && holder[f] == NOBODY
    else if holder[f] == NOBODY then x.Kept(f, progress[f]) == x.Selection(f)
    else 0 <= holder[f] < |ws| && ws[holder[f]].Busy? && ws[holder[f]].fullID == f
  }

  ghost predicate NoneMissing(x: Input, f: nat, n: nat)
    requires f < x.Count() && n <= |x.candidates[f]|
  {
    forall j :: 0 <= j < n ==> x.candidates[f][j].vid != NO_RESULT
  }

  ghost predicate WorkerOk(x: Input, t: nat, ws: seq<Worker>, progress: seq<nat>, holder: seq<int>)
    requires t < |ws| && Positions(x, progress) && |holder| == x.Count()
  {
    ws[t].Busy? ==>
      && ws[t].fullID < x.Count() && holder[ws[t].fullID] == t && ws[t].fullID !in x.except
      && progress[ws[t].fullID] == ws[t].i && ws[t].currReplicaCount == |x.Kept(ws[t].fullID, ws[t].i)|
      && NoneMissing(x, ws[t].fullID, ws[t].i)
  }

  ghost predicate Consistent(x: Input, next: nat, ws: seq<Worker>, progress: seq<nat>, holder: seq<int>) {
    && Positions(x, progress) && |holder| == x.Count()
    && (forall f :: 0 <= f < x.Count() ==> VectorOk(x, f, next, ws, progress, holder))
    && (forall t :: 0 <= t < |ws| ==> WorkerOk(x, t, ws, progress, holder))
    && (forall t :: 0 <= t < |ws| && ws[t] == Finished ==> next >= x.Count())
  }

  /** A thread takes the next vector; a busy thread's vector is another one. */
  lemma TakeStep(x: Input, next: nat, ws: seq<Worker>, progress: seq<nat>, holder: seq<int>, t: nat)
    requires Consistent(x, next, ws, progress, holder) && t < |ws| && ws[t] == Idle && next < x.Count()
      && next !in x.except
    ensures Consistent(x, next + 1, ws[t := Busy(next, 0, 0)], progress, holder[next := t])
  {
    var ws', holder', after := ws[t := Busy(next, 0, 0)], holder[next := t], next + 1;
    assert VectorOk(x, next, next, ws, progress, holder);
    forall f | 0 <= f < x.Count()
      ensures VectorOk(x, f, after, ws', progress, holder')
    {
      assert VectorOk(x, f, next, ws, progress, holder);
    }
    forall u | 0 <= u < |ws|
      ensures WorkerOk(x, u, ws', progress, holder')
    {
      assert WorkerOk(x, u, ws, progress, holder);
    }
  }

  lemma SkipStep(x: Input, next: nat, ws: seq<Worker>, progress: seq<nat>, holder: seq<int>, t: nat)
    requires Consistent(x, next, ws, progress, holder) && t < |ws| && ws[t] == Idle
      && (next >= x.Count() || next in x.except)
    ensures Consistent(x, next + 1, if next >= x.Count() then ws[t := Finished] else ws, progress, holder)
  {
    var ws', after := if next >= x.Count() then ws[t := Finished] else ws, next + 1;
    forall f | 0 <= f < x.Count()
      ensures VectorOk(x, f, after, ws', progress, holder)
    {
      assert VectorOk(x, f, next, ws, progress, holder);
    }
    forall u | 0 <= u < |ws|
      ensures WorkerOk(x, u, ws', progress, holder)
    {
      assert WorkerOk(x, u, ws, progress, holder);
    }
  }

  lemma ConsiderStep(x: Input, next: nat, ws: seq<Worker>, progress: seq<nat>, holder: seq<int>, t: nat)
    requires Consistent(x, next, ws, progress, holder) && t < |ws| && ws[t].Busy?
    requires ws[t].fullID < x.Count() && ws[t].i < |x.candidates[ws[t].fullID]|
      && x.candidates[ws[t].fullID][ws[t].i].vid != NO_RESULT
    ensures var f, i := ws[t].fullID, ws[t].i;
      Consistent(x, next, ws[t := Busy(f, i + 1, |x.Kept(f, i + 1)|)], progress[f := i + 1], holder)
  {
    var f, i := ws[t].fullID, ws[t].i;
    var ws', progress' := ws[t := Busy(f, i + 1, |x.Kept(f, i + 1)|)], progress[f := i + 1];
    assert WorkerOk(x, t, ws, progress, holder);
    forall g | 0 <= g < x.Count()
      ensures VectorOk(x, g, next, ws', progress', holder)
    {
      assert VectorOk(x, g, next, ws, progress, holder);
    }
    forall u | 0 <= u < |ws|
      ensures WorkerOk(x, u, ws', progress', holder)
    {
      assert WorkerOk(x, u, ws, progress, holder);
    }
  }

  /** Considering a result, as every thread sees it. */
  lemma Considered(x: Input, next: nat, ws: seq<Worker>, progress: seq<nat>, holder: seq<int>, t: nat, was: seq<Edge>,
      now: seq<Edge>, start: seq<Edge>)
    requires Consistent(x, next, ws, progress, holder) && t < |ws| && ws[t].Busy?
      && WorkerOk(x, t, ws, progress, holder)
    requires ws[t].i < |x.candidates[ws[t].fullID]| && x.candidates[ws[t].fullID][ws[t].i].vid != NO_RESULT
    requires |was| == |start| == x.Count() * x.replicaCount && BlocksAre(x, progress, was, start)
    requires |x.Kept(ws[t].fullID, ws[t].i)| < x.replicaCount && Takes(x, ws[t].fullID, ws[t].i, was, now)
    ensures var f, i := ws[t].fullID, ws[t].i;
      var ws', progress' := ws[t := Busy(f, i + 1, |x.Kept(f, i + 1)|)], progress[f := i + 1];
      && Consistent(x, next, ws', progress', holder) && BlocksAre(x, progress', now, start)
      && TotalWeight(x, ws') < TotalWeight(x, ws)
  {
    var f, i := ws[t].fullID, ws[t].i;
    BlocksStep(x, progress, was, now, start, f);
    ConsiderStep(x, next, ws, progress, holder, t);
    WeightUpdate(x, ws, t, Busy(f, i + 1, |x.Kept(f, i + 1)|));
  }

  lemma LeaveStep(x: Input, next: nat, ws: seq<Worker>, progress: seq<nat>, holder: seq<int>, t: nat)
    requires Consistent(x, next, ws, progress, holder) && t < |ws| && ws[t].Busy? && ws[t].fullID < x.Count()
    requires x.Kept(ws[t].fullID, progress[ws[t].fullID]) == x.Selection(ws[t].fullID)
    ensures Consistent(x, next, ws[t := Idle], progress, holder[ws[t].fullID := NOBODY])
  {
    var f := ws[t].fullID;
    var ws', holder' := ws[t := Idle], holder[f := NOBODY];
    assert WorkerOk(x, t, ws, progress, holder);
    forall g | 0 <= g < x.Count()
      ensures VectorOk(x, g, next, ws', progress, holder')
    {
      assert VectorOk(x, g, next, ws, progress, holder);
    }
    forall u | 0 <= u < |ws|
      ensures WorkerOk(x, u, ws', progress, holder')
    {
      assert WorkerOk(x, u, ws, progress, holder);
    }
  }

  /** Cell `j` of vector `f` at the end. */
  ghost function FinalCell(x: Input, f: nat, j: nat, cell: Edge): Edge
    requires f < x.Count() && j < x.replicaCount
  {
    if f !in x.except && j < |x.Selection(f)| then Overwritten(x, f, x.Selection(f)[j], cell) else cell
  }

  ghost predicate IsFinal(x: Input, now: seq<Edge>, start: seq<Edge>) {
    && |now| == |start| == x.Count() * x.replicaCount
    && forall f, j :: 0 <= f < x.Count() && 0 <= j < x.replicaCount ==>
      now[Cell(x, f, j)] == FinalCell(x, f, j, start[Cell(x, f, j)])
  }

  lemma AllDone(x: Input, next: nat, ws: seq<Worker>, progress: seq<nat>, holder: seq<int>, now: seq<Edge>,
      start: seq<Edge>)
    requires Consistent(x, next, ws, progress, holder) && |now| == |start| == x.Count() * x.replicaCount
      && BlocksAre(x, progress, now, start)
    requires ws != [] && forall t :: 0 <= t < |ws| ==> ws[t] == Finished
    ensures IsFinal(x, now, start)
  {
    assert ws[0] == Finished;
    forall f, j | 0 <= f < x.Count() && 0 <= j < x.replicaCount
      ensures now[Cell(x, f, j)] == FinalCell(x, f, j, start[Cell(x, f, j)])
    {
      assert VectorOk(x, f, next, ws, progress, holder);
      assert BlockIs(x, f, progress[f], now, start);
      assert CellIs(x, f, j, progress[f], now, start);
    }
  }

  class Replicas {
    const x: Input
    var selections: array<Edge>
    var nextFullID: nat
    var workers: seq<Worker>
    ghost var progress: seq<nat>
    ghost var holder: seq<int>

    constructor (x: Input, selections: array<Edge>)
      ensures this.x == x && this.selections == selections
    {
      this.x, this.selections, this.nextFullID, this.workers := x, selections, 0, [];
      this.progress, this.holder := [], [];
    }

    /** All that holds between two steps of any threads; `start` is what `selections` held before. */
    ghost predicate Working(start: seq<Edge>)
      reads this, selections
    {
      && selections.Length == |start| == x.Count() * x.replicaCount
      && Consistent(x, nextFullID, workers, progress, holder)
      && BlocksAre(x, progress, selections[..], start)
    }

    /** `nextFullID.fetch_add(1)` and what the thread makes of it. */
    method Fetch(t: nat, ghost start: seq<Edge>)
      requires Working(start) && t < |workers| && workers[t] == Idle
      modifies this`nextFullID, this`workers, this`holder
      ensures Working(start) && |workers| == |old(workers)|
      ensures nextFullID == old(nextFullID) + 1
      ensures old(nextFullID) >= x.Count() ==> workers == old(workers)[t := Finished]
    {
      var fullID := nextFullID;
      nextFullID := nextFullID + 1;
      if fullID >= x.Count() {
        SkipStep(x, fullID, workers, progress, holder, t);
        workers := workers[t := Finished];
      } else if fullID in x.except {
        SkipStep(x, fullID, workers, progress, holder, t);
      } else {
        TakeStep(x, fullID, workers, progress, holder, t);
        workers := workers[t := Busy(fullID, 0, 0)];
        holder := holder[fullID := t];
      }
    }

    /** The inner loop: is some earlier kept result too near to this one? */
    method RngAccepts(f: nat, i: nat, curr: nat, ghost start: seq<Edge>) returns (accepted: bool)
      requires selections.Length == |start| == x.Count() * x.replicaCount
      requires f < x.Count() && i < |x.candidates[f]| && curr == |x.Kept(f, i)|
        && BlockIs(x, f, i, selections[..], start)
      ensures accepted <==> x.Free(f, x.Kept(f, i), i)
    {
      accepted := true;
      for j := 0 to curr
        invariant accepted && forall m :: 0 <= m < j ==> !x.Blocks(f, x.Kept(f, i)[m], i)
      {
        assert CellIs(x, f, j, i, selections[..], start);
        var nnDist := x.dist(x.candidates[f][i].vid, selections[Cell(x, f, j)].node);
        if x.factor * nnDist <= x.candidates[f][i].dist {
          assert x.Blocks(f, x.Kept(f, i)[j], i);
          return false;
        }
      }
    }

    /** The loop over the results ends: all are seen, the block is full, or a result is missing. */
    method Leave(t: nat, ghost start: seq<Edge>)
      requires Working(start) && t < |workers| && workers[t].Busy? && workers[t].fullID < x.Count()
      requires x.Kept(workers[t].fullID, progress[workers[t].fullID]) == x.Selection(workers[t].fullID)
      modifies this`workers, this`holder
      ensures Working(start) && |workers| == |old(workers)|
      ensures TotalWeight(x, workers) < TotalWeight(x, old(workers))
    {
      LeaveStep(x, nextFullID, workers, progress, holder, t);
      WeightUpdate(x, workers, t, Idle);
      holder := holder[workers[t].fullID := NOBODY];
      workers := workers[t := Idle];
    }

    /** `selections[selectionOffset + currReplicaCount]` takes the result. */
    method Keep(f: nat, i: nat, curr: nat)
      requires selections.Length == x.Count() * x.replicaCount && f < x.Count() && i < |x.candidates[f]|
        && curr < x.replicaCount
      modifies selections
      ensures selections[..] ==
        old(selections[..])[Cell(x, f, curr) := Overwritten(x, f, i, old(selections[..])[Cell(x, f, curr)])]
    {
      var c := Cell(x, f, curr);
      selections[c] := selections[c].(node := x.candidates[f][i].vid);
      selections[c] := selections[c].(distance := x.candidates[f][i].dist);
    }

    /** The block of the vector a thread works on, and the results it has seen. */
    lemma LiveNow(f: nat, i: nat, start: seq<Edge>)
      requires Working(start) && f < x.Count() && i == progress[f] < |x.candidates[f]| && NoneMissing(x, f, i)
      requires x.candidates[f][i].vid != NO_RESULT
      ensures BlockIs(x, f, i, selections[..], start) && x.Live(f, i)
    {
      assert BlockIs(x, f, progress[f], selections[..], start);
    }

    /** The result takes the next cell if no earlier kept one shadows it. */
    method KeepIfFree(f: nat, i: nat, curr: nat, ghost start: seq<Edge>) returns (next: nat)
      requires selections.Length == |start| == x.Count() * x.replicaCount && f < x.Count() && i < |x.candidates[f]|
      requires curr == |x.Kept(f, i)| < x.replicaCount && x.Live(f, i) && BlockIs(x, f, i, selections[..], start)
      modifies selections
      ensures next == |x.Kept(f, i + 1)|
      ensures Takes(x, f, i, old(selections[..]), selections[..])
    {
      next := curr;
      var accepted := RngAccepts(f, i, curr, start);
      if accepted {
        Keep(f, i, curr);
        next := curr + 1;
      }
    }

    /** The RNG check of one result, and what follows from it. */
    method Check(t: nat, f: nat, i: nat, curr: nat, ghost start: seq<Edge>)
      requires Working(start) && t < |workers| && workers[t] == Busy(f, i, curr)
        && WorkerOk(x, t, workers, progress, holder)
      requires i < |x.candidates[f]| && curr < x.replicaCount && x.candidates[f][i].vid != NO_RESULT
      modifies this`workers, this`progress, selections
      ensures Working(start) && |workers| == |old(workers)|
      ensures TotalWeight(x, workers) < TotalWeight(x, old(workers))
    {
      ghost var was := selections[..];
      LiveNow(f, i, start);
      var next := KeepIfFree(f, i, curr, start);
      Considered(x, nextFullID, workers, progress, holder, t, was, selections[..], start);
      workers := workers[t := Busy(f, i + 1, next)];
      progress := progress[f := i + 1];
    }

    /** One turn of a busy thread's loop over its results. */
    method Consider(t: nat, ghost start: seq<Edge>)
      requires Working(start) && t < |workers| && workers[t].Busy?
      modifies this`workers, this`progress, this`holder, selections
      ensures Working(start) && |workers| == |old(workers)|
      ensures TotalWeight(x, workers) < TotalWeight(x, old(workers))
    {
      assert WorkerOk(x, t, workers, progress, holder);
      var f, i, curr := workers[t].fullID, workers[t].i, workers[t].currReplicaCount;
      if i >= |x.candidates[f]| || curr >= x.replicaCount || x.candidates[f][i].vid == NO_RESULT {
        if i < |x.candidates[f]| {
          x.KeptStops(f, i, |x.candidates[f]|);
        }
        Leave(t, start);
      } else {
        Check(t, f, i, curr, start);
      }
    }

    /**
      Any number of threads in any interleaving of their steps: at the end every vector's block holds its selection,
      written over what was there, and every other cell is as it was. Nothing depends on the threads or their order.
     */
    method ApproximateRNG(numThreads: nat)
      requires numThreads > 0 && selections.Length == x.Count() * x.replicaCount
      modifies this, selections
      ensures selections == old(selections) && IsFinal(x, selections[..], old(selections[..]))
    {
      ghost var start := selections[..];
      workers := seq(numThreads, _ => Idle);
      nextFullID, progress, holder := 0, seq(x.Count(), _ => 0), seq(x.Count(), _ => NOBODY);
      Fresh(start);
      while exists t :: 0 <= t < |workers| && workers[t] != Finished
        invariant Working(start) && |workers| == numThreads && selections == old(selections)
        decreases if nextFullID < x.Count() then x.Count() - nextFullID else 0, TotalWeight(x, workers)
      {
        var t :| 0 <= t < |workers| && workers[t] != Finished;
        if workers[t] == Idle {
          WeightUpdate(x, workers, t, Finished);
          Fetch(t, start);
        } else {
          Consider(t, start);
        }
      }
      AllDone(x, nextFullID, workers, progress, holder, selections[..], start);
    }

    lemma Fresh(start: seq<Edge>)
      requires selections.Length == |start| == x.Count() * x.replicaCount && selections[..] == start && nextFullID == 0
      requires |progress| == |holder| == x.Count() && forall f :: 0 <= f < x.Count() ==>
        progress[f] == 0 && holder[f] == NOBODY
      requires forall t :: 0 <= t < |workers| ==> workers[t] == Idle
      ensures Working(start)
    {
      forall f | 0 <= f < x.Count()
        ensures BlockIs(x, f, progress[f], selections[..], start)
      {
        forall j | 0 <= j < x.replicaCount
          ensures CellIs(x, f, j, 0, selections[..], start)
        {
        }
      }
    }
  }
}
