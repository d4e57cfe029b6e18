/** The searches for the thresholds whose selection comes nearest to the target ratio. */
module HeadSearch {
  import opened Options
  import opened Sorting
  import opened ThreadSlices
  import opened BKTree
  import opened HeadDynamic
  import opened HeadRatio
  import opened HeadTries
  import opened HeadBest

  /** Sorts the selection and drops repetitions. */
  method Select(tree: Tree, t: Thresholds) returns (selected: seq<int>)
    requires WellFormed(tree) && t.factor > 0
    ensures selected == Heads(tree, t)
  {
    var residual;
    residual, selected := SelectHeadDynamicallyInternal(tree, 0, t, []);
    assert selected == Selection(tree, 0, t);
    selected := Unique(SortBy(selected, IntLe));
  }

  ghost predicate Searchable(x: Problem, par: seq<int>) {
    x.Valid() && CentersInRange(x.tree, par, x.vectorCount) && x.ratio < 1.0
  }

  /** One pair: its heads, whether they are too many, and whether it is the best so far. */
  method TryPair(x: Problem, t: Thresholds, best0: Thresholds, minDiff0: real, ghost tried: set<Thresholds>,
      ghost par: seq<int>)
    returns (best: Thresholds, minDiff: real, tooMany: bool)
    requires Searchable(x, par) && t.factor == x.opts.factor && x.IsBest(tried, best0, minDiff0)
    ensures x.IsBest(tried + {t}, best, minDiff) && tooMany == x.TooMany(t)
  {
    best, minDiff := best0, minDiff0;
    var selected := Select(x.tree, t);
    var diff := |selected| as real / x.vectorCount as real - x.ratio;
    DiffBound(x.tree, par, x.vectorCount, x.ratio, t);
    if minDiff > Abs(diff) {
      minDiff, best := Abs(diff), t;
    }
    tooMany := diff > 0.0;
  }

  /** The inner search: halving the interval of split thresholds for one select threshold. */
  method TrySplits(x: Problem, select: int, lo: int, hi: int, before: int, best0: Thresholds, minDiff0: real,
      ghost tried0: set<Thresholds>, ghost par: seq<int>)
    returns (best: Thresholds, minDiff: real, last: int)
    requires Searchable(x, par) && x.IsBest(tried0, best0, minDiff0)
    ensures x.IsBest(tried0 + x.SplitsTried(select, lo, hi), best, minDiff)
    ensures last == x.LastSplit(select, lo, hi, before)
  {
    best, minDiff, last := best0, minDiff0, before;
    var l, r := lo, hi;
    ghost var tried := tried0;
    while l < r - 1
      invariant x.IsBest(tried, best, minDiff)
      invariant tried + x.SplitsTried(select, l, r) == tried0 + x.SplitsTried(select, lo, hi)
      invariant x.LastSplit(select, l, r, last) == x.LastSplit(select, lo, hi, before)
      decreases r - l
    {
      last := (l + r) / 2;
      var t := x.Pair(select, last);
      var tooMany;
      best, minDiff, tooMany := TryPair(x, t, best, minDiff, tried, par);
      tried := tried + {t};
      if tooMany {
        l := (l + r) / 2;
      } else {
        r := (l + r) / 2;
      }
    }
    assert tried == tried0 + x.SplitsTried(select, lo, hi);
  }

  ghost predicate IsEverything(selected: seq<int>, vectorCount: nat) {
    |selected| == vectorCount && forall i :: 0 <= i < vectorCount ==> selected[i] == i
  }

  method SelectEverything(vectorCount: nat) returns (selected: seq<int>)
    ensures IsEverything(selected, vectorCount)
  {
    selected := [];
    for i := 0 to vectorCount
      invariant IsEverything(selected, i)
    {
      selected := selected + [i];
    }
  }

  /** The last step of both searches: select once more with the best pair. */
  method Conclude(x: Problem, best: Thresholds, ghost tried: set<Thresholds>, ghost minDiff: real, ghost par: seq<int>)
    returns (selected: seq<int>)
    requires Searchable(x, par) && x.IsBest(tried, best, minDiff)
    ensures Increasing(selected) && x.Outcome(tried, selected)
  {
    selected := Select(x.tree, best);
    HeadsFacts(x.tree, par, x.vectorCount, best);
  }

  lemma StartsSearchable(x: Problem, par: seq<int>)
    requires CentersInRange(x.tree, par, x.vectorCount) && x.opts.factor > 0 && 0.0 <= x.ratio && !x.WantsAll()
    ensures Searchable(x, par) && x.IsBest({}, x.opts, 100.0)
  {
    RatioBelowOne(x.ratio, x.vectorCount);
  }

  /** One turn of the old search. */
  method TryOld(x: Problem, select: int, best0: Thresholds, minDiff0: real, ghost par: seq<int>)
    returns (best: Thresholds, minDiff: real)
    requires Searchable(x, par) && select >= 2 && x.IsBest(x.OldTried(select - 1), best0, minDiff0)
    ensures x.IsBest(x.OldTried(select), best, minDiff)
  {
    var last;
    best, minDiff, last :=
      TrySplits(x, select, x.opts.factor, x.opts.split, 0, best0, minDiff0, x.OldTried(select - 1), par);
  }

  method TryAllOld(x: Problem, ghost par: seq<int>) returns (best: Thresholds, minDiff: real)
    requires Searchable(x, par) && x.IsBest({}, x.opts, 100.0)
    ensures x.IsBest(x.OldTried(x.opts.select), best, minDiff)
  {
    x.OldTriedNone(1);
    best, minDiff := x.opts, 100.0;
    var select := 2;
    while select <= x.opts.select
      invariant 2 <= select && (select == 2 || select <= x.opts.select + 1)
      invariant x.IsBest(x.OldTried(select - 1), best, minDiff)
    {
      best, minDiff := TryOld(x, select, best, minDiff, par);
      select := select + 1;
    }
    x.OldTriedNone(x.opts.select);
  }

  /**
    Tries every select threshold from 2 to that of the options, each with its splits, and ends with the heads of the
    best pair; none of the pairs it leaves out is better.
   */
  method SelectHeadDynamicallyOld(x: Problem, ghost par: seq<int>) returns (selected: seq<int>)
    requires CentersInRange(x.tree, par, x.vectorCount) && x.opts.factor > 0 && 0.0 <= x.ratio
    ensures Increasing(selected)
    ensures x.WantsAll() ==> IsEverything(selected, x.vectorCount)
    ensures !x.WantsAll() ==> x.Valid() && x.Outcome(x.OldTried(x.opts.select), selected)
    ensures !x.WantsAll() ==> x.Outcome(OldPairs(x, x.opts.select), selected)
  {
    if x.WantsAll() {
      selected := SelectEverything(x.vectorCount);
      return;
    }
    StartsSearchable(x, par);
    var best, minDiff := TryAllOld(x, par);
    selected := Conclude(x, best, x.OldTried(x.opts.select), minDiff, par);
    OldMatches(x, par, x.opts.select);
    BestOfAll(x, x.OldTried(x.opts.select), OldPairs(x, x.opts.select), selected);
  }

  lemma UsedBound(used: map<int, int>, vectorCount: nat)
    requires forall k :: k in used ==> 1 <= k <= vectorCount
    ensures |used| <= vectorCount + 1
  {
    RangeBound(used.Keys, vectorCount + 1);
  }

  /** What the loop remembers: the last split of every select threshold it has tried. */
  ghost predicate Remembers(x: Problem, used: map<int, int>)
    requires x.Valid()
  {
    && |used| <= x.vectorCount + 1
    && forall k :: k in used ==> x.InRange(k) && used[k] == x.SplitAt(k)
  }

  /** The tries of a select threshold that is new. */
  method TryNew(x: Problem, select: int, used: map<int, int>, best0: Thresholds, minDiff0: real, ghost par: seq<int>)
    returns (best: Thresholds, minDiff: real, split: int)
    requires Searchable(x, par) && x.IsBest(x.Tried(used.Keys), best0, minDiff0)
    ensures x.IsBest(x.Tried(used.Keys + {select}), best, minDiff) && split == x.SplitAt(select)
  {
    best, minDiff, split :=
      TrySplits(x, select, x.opts.factor, x.UpperSplit(select), 0, best0, minDiff0, x.Tried(used.Keys), par);
    x.TriedMore(used.Keys, select);
  }

  lemma RemembersMore(x: Problem, used: map<int, int>, select: int)
    requires x.Valid() && Remembers(x, used) && x.InRange(select) && select !in used
    ensures var used' := used[select := x.SplitAt(select)];
      Remembers(x, used') && used'.Keys == used.Keys + {select} && |used'| == |used| + 1
  {
    var used' := used[select := x.SplitAt(select)];
    assert used'.Keys == used.Keys + {select};
    UsedBound(used', x.vectorCount);
  }

  /** The tries of a turn; a threshold met again starts the random phase. */
  method TrySelect(x: Problem, ghost a: Turn, select: int, randomTry: int, used: map<int, int>, best0: Thresholds,
      minDiff0: real, ghost par: seq<int>)
    returns (best: Thresholds, minDiff: real, used': map<int, int>, randomTry': int)
    requires Searchable(x, par) && Remembers(x, used) && a.select == select && x.InRange(select)
    requires a.used == used.Keys && a.random == randomTry && x.IsBest(x.Tried(used.Keys), best0, minDiff0)
    ensures Remembers(x, used') && select in used' && used'.Keys == x.Seen(a).used && randomTry' == x.Seen(a).random
    ensures x.IsBest(x.Tried(used'.Keys), best, minDiff)
    ensures if select in used then used' == used else |used'| == |used| + 1 && randomTry' == randomTry
  {
    best, minDiff, used', randomTry' := best0, minDiff0, used, randomTry;
    if select !in used {
      var split;
      best, minDiff, split := TryNew(x, select, used, best, minDiff, par);
      RemembersMore(x, used, select);
      used' := used[select := split];
    } else {
      assert used.Keys + {select} == used.Keys;
      randomTry' := if randomTry < 1 then 1 else randomTry;
    }
  }

  /** The guided phase, from what the tries have shown. */
  method Guide(x: Problem, ghost b: Turn, split: int, minDiff: real, select: int, step: int, randomTry: int,
      ghost best: Thresholds)
    returns (stop: bool, select': int, step': int, randomTry': int)
    requires x.Valid() && x.InRange(b.select) && b.select in b.used && split == x.SplitAt(b.select)
    requires (select, step, randomTry) == (b.select, b.step, b.random) && x.IsBest(x.Tried(b.used), best, minDiff)
    ensures stop <==> x.Guided(b) == None
    ensures !stop ==> x.Guided(b) == Some(b.(select := select', step := step', random := randomTry'))
    ensures !stop ==> x.InRange(select') && (randomTry' == randomTry || (randomTry == 0 && randomTry' == 1))
  {
    stop, select', step', randomTry' := false, select, step, randomTry;
    if randomTry == 0 {
      var ssratio := split as real / select as real;
      if ssratio < 1.8 {
        step' := GuidedStep(step, false);
        select' := select + step';
      } else if ssratio > 2.2 {
        step' := GuidedStep(step, true);
        select' := select + step';
      } else {
        x.TriedSome(b.used, b.select);
        x.FarOffIff(x.Tried(b.used), best, minDiff);
        if OffsetTooBig(minDiff, x.ratio) {
          randomTry' := 1;
        } else {
          stop := true;
        }
      }
      select' := x.Clamp(select');
    }
  }

  /** The random phase. */
  method Step(x: Problem, ghost c: Turn, select: int, last: int, step: int, randomTry: int)
    returns (stop: bool, select': int, step': int, randomTry': int, ghost choice: int)
    requires x.Valid() && x.InRange(select) && (select, last, step, randomTry) == (c.select, c.last, c.step, c.random)
    ensures IsChoice(choice) && (stop ==> forall other :: x.Stepped(c, other) == None)
    ensures !stop ==> x.Stepped(c, choice) == Some(Turn(select', select', step', randomTry', c.used))
    ensures !stop ==> x.InRange(select')
    ensures !stop ==>
      if 0 < randomTry < x.maxRandomTry then randomTry' == randomTry + 1
      else randomTry' == randomTry && last != select == select'
  {
    stop, select', step', randomTry', choice := false, select, step, randomTry, 1;
    if 0 < randomTry < x.maxRandomTry {
      assert IsChoice(1);
      step' :| IsChoice(step');
      choice := step';
      select' := x.Clamp(select + step');
      randomTry' := randomTry + 1;
    } else if last == select {
      stop := true;
    }
  }

  /** The loop's variables are those of the last turn. */
  ghost predicate AtTurn(x: Problem, turns: seq<Turn>, select: int, last: int, step: int, randomTry: int,
      used: map<int, int>)
    requires x.Valid()
  {
    && x.IsPath(turns) && randomTry >= 0 && select <= x.vectorCount && Remembers(x, used)
    && turns[|turns| - 1] == Turn(select, last, step, randomTry, used.Keys)
  }

  lemma TurnGoes(x: Problem, turns: seq<Turn>, b: Turn, choice: int)
    requires x.Valid() && x.IsPath(turns) && x.InRange(turns[|turns| - 1].select)
    requires IsChoice(choice) && x.Next(turns[|turns| - 1], choice) == Some(b)
    ensures x.IsPath(turns + [b])
  {
    assert x.Goes(turns[|turns| - 1], b);
  }

  /** At the end of a search the thresholds used and the last one are the ones visited. */
  lemma SearchDone(x: Problem, turns: seq<Turn>)
    requires x.Valid() && x.IsPath(turns)
    ensures var a := turns[|turns| - 1]; x.Visited(turns) == if x.InRange(a.select) then a.used + {a.select} else a.used
  {
    x.PathFacts(turns);
  }

  /**
    The full search. It ends for every tree, every option and every outcome of the random steps: the guided phase uses
    up thresholds, the random phase uses up its tries, and after that a threshold can only be repeated once. What it
    tries is what a search from the first threshold on visits, turn by turn, and it ends with the heads of the best
    pair of any split threshold with a select threshold visited.
   */
  method SelectHeadDynamically(x: Problem, ghost par: seq<int>) returns (selected: seq<int>, ghost turns: seq<Turn>)
    requires CentersInRange(x.tree, par, x.vectorCount) && x.opts.factor > 0 && 0.0 <= x.ratio
    ensures Increasing(selected)
    ensures x.WantsAll() ==> IsEverything(selected, x.vectorCount)
    ensures !x.WantsAll() ==> x.Valid() && x.IsSearch(turns) && x.Outcome(x.Tried(x.Visited(turns)), selected)
    ensures !x.WantsAll() ==> x.Outcome(PairsOf(x, x.Visited(turns)), selected)
  {
    turns := [x.First()];
    if x.WantsAll() {
      selected := SelectEverything(x.vectorCount);
      return;
    }
    StartsSearchable(x, par);
    x.TriedNone();
    var best, minDiff := x.opts, 100.0;
    var select := if x.opts.select < x.vectorCount then x.opts.select else x.vectorCount;
    var last, step, randomTry := select, 0, 0;
    var used: map<int, int> := map[];
    while x.InRange(select)
      invariant AtTurn(x, turns, select, last, step, randomTry, used)
      invariant x.IsBest(x.Tried(used.Keys), best, minDiff)
      decreases if randomTry == 0 then 1 else 0, x.vectorCount + 1 - |used|,
                if randomTry < x.maxRandomTry then x.maxRandomTry - randomTry else 0, if last == select then 0 else 1
    {
      ghost var a, choice := turns[|turns| - 1], 1;
      best, minDiff, used, randomTry := TrySelect(x, a, select, randomTry, used, best, minDiff, par);
      ghost var b := x.Seen(a);
      var stop;
      stop, select, step, randomTry := Guide(x, b, used[select], minDiff, select, step, randomTry, best);
      if stop {
        break;
      }
      ghost var c := x.Guided(b).value;
      stop, select, step, randomTry, choice := Step(x, c, select, last, step, randomTry);
      if stop {
        break;
      }
      last := select;
      ghost var d := x.Next(a, choice).value;
      TurnGoes(x, turns, d, choice);
      turns := turns + [d];
    }
    SearchDone(x, turns);
    selected := Conclude(x, best, x.Tried(x.Visited(turns)), minDiff, par);
    TriedMatches(x, par, x.Visited(turns));
    BestOfAll(x, x.Tried(x.Visited(turns)), PairsOf(x, x.Visited(turns)), selected);
  }
}
