/** Which pairs of thresholds the searches try, as sets and as runs of turns. */
module HeadTries {
  import opened Options
  import opened BKTree
  import opened HeadDynamic
  import opened HeadRatio

  /** What the full search remembers between two turns of its loop. */
  datatype Turn = Turn(select: int, last: int, step: int, random: int, used: set<int>)

  /** The step of the guided phase: back and forth, doubling while it keeps its direction. */
  function GuidedStep(tryStep: int, up: bool): int {
    if up then
      if tryStep <= 0 then 1 else if tryStep < 128 then tryStep * 2 else tryStep
    else
      if tryStep >= 0 then -1 else if -tryStep < 128 then tryStep * 2 else tryStep
  }

  /** `diffOffset > 0.02`, where dividing by a zero ratio gives infinity or, for a zero difference, no number at all. */
  predicate OffsetTooBig(diff: real, ratio: real) {
    if ratio == 0.0 then diff > 0.0 else diff / ratio > 0.02
  }

  predicate IsChoice(choice: int) {
    -8 <= choice <= 8 && choice != 0
  }

  datatype Problem = Problem(tree: Tree, vectorCount: nat, ratio: real, opts: Thresholds, maxRandomTry: int)
  {
    ghost predicate Valid() {
      WellFormed(tree) && vectorCount > 0 && opts.factor > 0 && ratio >= 0.0
    }

    /** The target ratio rounds up to all vectors. */
    predicate WantsAll() {
      Round(ratio * vectorCount as real) >= vectorCount
    }

    function Pair(select: int, split: int): Thresholds {
      Thresholds(select, split, opts.factor)
    }

    /** Does the pair select more than the target? */
    ghost predicate TooMany(t: Thresholds)
      requires Valid()
    {
      t.factor > 0 && Diff(tree, vectorCount, ratio, t) > 0.0
    }

    ghost function Deviation(t: Thresholds): real
      requires Valid()
    {
      if t.factor > 0 then Abs(Diff(tree, vectorCount, ratio, t)) else 0.0
    }

    // ----- one select threshold -----

    /** The pairs met when the interval from `l` to `r` is halved: up after too many heads, down otherwise. */
    ghost function SplitsTried(select: int, l: int, r: int): set<Thresholds>
      requires Valid()
      decreases r - l
    {
      if l >= r - 1 then {}
      else
        var t := Pair(select, (l + r) / 2);
        {t} + if TooMany(t) then SplitsTried(select, t.split, r) else SplitsTried(select, l, t.split)
    }

    /** The split threshold met last; `before` when none is met. */
    ghost function LastSplit(select: int, l: int, r: int, before: int): int
      requires Valid()
      decreases r - l
    {
      if l >= r - 1 then before
      else
        var t := Pair(select, (l + r) / 2);
        if TooMany(t) then LastSplit(select, t.split, r, t.split) else LastSplit(select, l, t.split, t.split)
    }

    lemma {:induction false} SplitsAre(select: int, l: int, r: int)
      requires Valid()
      ensures forall t :: t in SplitsTried(select, l, r) ==> t == Pair(select, t.split) && l < t.split < r
      ensures l < r - 1 <==> SplitsTried(select, l, r) != {}
      decreases r - l
    {
      if l < r - 1 {
        var t := Pair(select, (l + r) / 2);
        SplitsAre(select, t.split, r);
        SplitsAre(select, l, t.split);
        assert t in SplitsTried(select, l, r);
      }
    }

    lemma SplitsSelect(select: int, l: int, r: int, t: Thresholds)
      requires Valid() && t in SplitsTried(select, l, r)
      ensures t.select == select
    {
      SplitsAre(select, l, r);
    }

    /** Each half of the search stays on its own select threshold. */
    lemma {:induction false} LastIsTried(select: int, l: int, r: int, before: int)
      requires Valid() && l < r - 1
      ensures Pair(select, LastSplit(select, l, r, before)) in SplitsTried(select, l, r)
      decreases r - l
    {
      var t := Pair(select, (l + r) / 2);
      if TooMany(t) {
        if t.split < r - 1 {
          LastIsTried(select, t.split, r, t.split);
        }
      } else if l < t.split - 1 {
        LastIsTried(select, l, t.split, t.split);
      }
    }

    // ----- the old search -----

    /** Every select threshold from 2 to `n`, with its splits. */
    ghost function OldTried(n: int): set<Thresholds>
      requires Valid()
      decreases n
    {
      if n < 2 then {} else OldTried(n - 1) + SplitsTried(n, opts.factor, opts.split)
    }

    lemma OldTriedNone(n: int)
      requires Valid()
      ensures n < 2 ==> OldTried(n) == {}
    {
    }

    lemma {:induction false} OldTriedIff(n: int, t: Thresholds)
      requires Valid()
      ensures t in OldTried(n) <==> 2 <= t.select <= n && t in SplitsTried(t.select, opts.factor, opts.split)
      decreases n
    {
      if n >= 2 {
        OldTriedIff(n - 1, t);
        if t in SplitsTried(n, opts.factor, opts.split) {
          SplitsSelect(n, opts.factor, opts.split, t);
        }
      }
    }

    // ----- the full search -----

    /** The upper end of the splits for a select threshold. */
    function UpperSplit(select: int): int {
      var r := (select as real * 3.2).Floor;
      if opts.factor + 2 < r then r else opts.factor + 2
    }

    ghost function TriedAt(select: int): set<Thresholds>
      requires Valid()
    {
      SplitsTried(select, opts.factor, UpperSplit(select))
    }

    ghost function SplitAt(select: int): int
      requires Valid()
    {
      LastSplit(select, opts.factor, UpperSplit(select), 0)
    }

    ghost function Tried(selects: set<int>): set<Thresholds>
      requires Valid()
    {
      set s, t | s in selects && t in TriedAt(s) :: t
    }

    lemma TriedIff(selects: set<int>, t: Thresholds)
      requires Valid()
      ensures t in Tried(selects) <==> t.select in selects && t in TriedAt(t.select)
    {
      forall s | s in selects && t in TriedAt(s)
        ensures s == t.select
      {
        SplitsAre(s, opts.factor, UpperSplit(s));
      }
    }

    lemma TriedMore(selects: set<int>, s: int)
      requires Valid()
      ensures Tried(selects + {s}) == Tried(selects) + TriedAt(s)
    {
      forall t
        ensures t in Tried(selects + {s}) <==> t in Tried(selects) + TriedAt(s)
      {
        TriedIff(selects + {s}, t);
        TriedIff(selects, t);
        SplitsAre(s, opts.factor, UpperSplit(s));
      }
    }

    /** Every select threshold has some pair to try. */
    lemma TriedSome(selects: set<int>, s: int)
      requires Valid() && s in selects
      ensures Tried(selects) != {}
    {
      LastIsTried(s, opts.factor, UpperSplit(s), 0);
      TriedIff(selects, Pair(s, SplitAt(s)));
    }

    lemma TriedNone()
      requires Valid()
      ensures Tried({}) == {}
    {
    }

    /** No pair tried comes near enough to the target. */
    ghost predicate FarOff(tried: set<Thresholds>)
      requires Valid()
    {
      forall t :: t in tried ==> OffsetTooBig(Deviation(t), ratio)
    }

    function Clamp(select: int): int {
      var atLeastOne := if select < 1 then 1 else select;
      if atLeastOne < vectorCount then atLeastOne else vectorCount
    }

    function First(): Turn {
      var select := if opts.select < vectorCount then opts.select else vectorCount;
      Turn(select, select, 0, 0, {})
    }

    predicate InRange(select: int) {
      1 <= select <= vectorCount
    }

    /** After the tries of a turn: a threshold met again starts the random phase. */
    function Seen(a: Turn): Turn {
      a.(used := a.used + {a.select}, random := if a.select in a.used && a.random < 1 then 1 else a.random)
    }

    /**
      The guided phase goes down from a low split to select ratio and up from a high one; in between it is done, or goes
      random.
     */
    ghost function Guided(b: Turn): Option<Turn>
      requires Valid() && InRange(b.select)
    {
      var ssratio := SplitAt(b.select) as real / b.select as real;
      if b.random != 0 then Some(b)
      else if ssratio < 1.8 || ssratio > 2.2 then
        var step := GuidedStep(b.step, ssratio > 2.2);
        Some(b.(step := step, select := Clamp(b.select + step)))
      else if FarOff(Tried(b.used)) then Some(b.(random := 1))
      else None
    }

    /** The random phase steps by `choice`; without tries left, a threshold that did not change ends the search. */
    function Stepped(c: Turn, choice: int): Option<Turn> {
      if 0 < c.random < maxRandomTry then
        var select := Clamp(c.select + choice);
        Some(Turn(select, select, choice, c.random + 1, c.used))
      else if c.last == c.select then None
      else Some(c.(last := c.select))
    }

    ghost function Next(a: Turn, choice: int): Option<Turn>
      requires Valid() && InRange(a.select)
    {
      var guided := Guided(Seen(a));
      if guided == None then None else Stepped(guided.value, choice)
    }

    ghost predicate Goes(a: Turn, b: Turn)
      requires Valid()
    {
      InRange(a.select) && exists choice :: IsChoice(choice) && Next(a, choice) == Some(b)
    }

    ghost predicate Ends(a: Turn)
      requires Valid()
    {
      !InRange(a.select) || forall choice :: IsChoice(choice) ==> Next(a, choice) == None
    }

    /** The turns from the first on, each one following from the one before for some random choice. */
    ghost predicate IsPath(turns: seq<Turn>)
      requires Valid()
    {
      && turns != [] && turns[0] == First()
      && forall i :: 0 <= i < |turns| - 1 ==> Goes(turns[i], turns[i + 1])
    }

    ghost predicate IsSearch(turns: seq<Turn>)
      requires Valid()
    {
      IsPath(turns) && Ends(turns[|turns| - 1])
    }

    /** The select thresholds of the turns. */
    ghost function Visited(turns: seq<Turn>): set<int> {
      set i | 0 <= i < |turns| && InRange(turns[i].select) :: turns[i].select
    }

    lemma NextUses(a: Turn, choice: int)
      requires Valid() && InRange(a.select) && Next(a, choice).Some?
      ensures Next(a, choice).value.used == a.used + {a.select}
      ensures IsChoice(choice) && a.select >= 1 ==> InRange(Next(a, choice).value.select)
    {
    }

    lemma VisitedMore(turns: seq<Turn>)
      requires turns != []
      ensures Visited(turns) == Visited(turns[..|turns| - 1]) +
        if InRange(turns[|turns| - 1].select) then {turns[|turns| - 1].select} else {}
    {
      var n := |turns| - 1;
      forall s
        ensures s in Visited(turns) <==> s in Visited(turns[..n]) || (InRange(s) && s == turns[n].select)
      {
        if s in Visited(turns) {
          var i :| 0 <= i < |turns| && InRange(turns[i].select) && turns[i].select == s;
          assert i < n ==> turns[..n][i].select == s;
        }
      }
    }

    /** What the turns before the last have used are the thresholds they tried. */
    lemma {:induction false} PathFacts(turns: seq<Turn>)
      requires Valid() && IsPath(turns)
      ensures turns[|turns| - 1].used == Visited(turns[..|turns| - 1])
      ensures if opts.select >= 1 then InRange(turns[|turns| - 1].select) else |turns| == 1
      decreases |turns|
    {
      var n := |turns| - 1;
      if n > 0 {
        var before := turns[..n];
        PathFacts(before);
        VisitedMore(before);
        assert Goes(turns[n - 1], turns[n]);
        var choice :| IsChoice(choice) && Next(turns[n - 1], choice) == Some(turns[n]);
        NextUses(turns[n - 1], choice);
      }
    }

    /** A search tries something exactly when the select threshold it starts from is positive. */
    lemma SearchTries(turns: seq<Turn>)
      requires Valid() && IsSearch(turns)
      ensures Tried(Visited(turns)) != {} <==> opts.select >= 1
      ensures opts.select >= 1 ==> TriedAt(First().select) <= Tried(Visited(turns))
    {
      PathFacts(turns);
      if opts.select >= 1 {
        var first := First().select;
        assert InRange(first) && turns[0].select == first && first in Visited(turns);
        TriedSome(Visited(turns), first);
      } else {
        assert Visited(turns) == {};
        TriedNone();
      }
    }

    // ----- the best pair -----

    /** `best` is the pair with the least deviation of those tried; the options themselves when none is. */
    ghost predicate IsBest(tried: set<Thresholds>, best: Thresholds, minDiff: real)
      requires Valid()
    {
      && best.factor == opts.factor && (forall t :: t in tried ==> t.factor == opts.factor)
      && if tried == {} then best == opts && minDiff == 100.0
         else best in tried && minDiff == Deviation(best) && forall t :: t in tried ==> minDiff <= Deviation(t)
    }

    /** The heads of a pair of least deviation. */
    ghost predicate Outcome(tried: set<Thresholds>, selected: seq<int>)
      requires Valid()
    {
      exists best, minDiff :: IsBest(tried, best, minDiff) && selected == Heads(tree, best)
    }

    /** The least deviation decides whether all are far off. */
    lemma FarOffIff(tried: set<Thresholds>, best: Thresholds, minDiff: real)
      requires Valid() && tried != {} && IsBest(tried, best, minDiff)
      ensures FarOff(tried) <==> OffsetTooBig(minDiff, ratio)
    {
      forall t | t in tried && OffsetTooBig(minDiff, ratio)
        ensures OffsetTooBig(Deviation(t), ratio)
      {
        if ratio > 0.0 {
          QuotientGrows(minDiff, Deviation(t), ratio);
        }
      }
    }
  }

  lemma QuotientGrows(a: real, b: real, c: real)
    requires a <= b && c > 0.0
    ensures a / c <= b / c
  {
    var p, q := a / c, b / c;
    assert p * c == a && q * c == b;
    if q < p {
      ProductsOrdered(q, p, c);
    }
  }

  lemma ProductsOrdered(q: real, p: real, c: real)
    requires q < p && c > 0.0
    ensures q * c < p * c
  {
  }
}
