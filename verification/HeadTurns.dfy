/** How the full search moves, and why it ends. */
module HeadTurns {
  import opened Options
  import opened HeadDynamic
  import opened HeadRatio
  import opened HeadTries

  // ----- the measure -----

  /** A pair is as far off as its share of the vectors is from the ratio, on either side. */
  lemma DeviationLaw(x: Problem, t: Thresholds)
    requires x.Valid() && t.factor > 0
    ensures var share := |Heads(x.tree, t)| as real / x.vectorCount as real;
      && x.Deviation(t) == (if share > x.ratio then share - x.ratio else x.ratio - share)
      && (x.TooMany(t) <==> share > x.ratio)
  {
  }

  // ----- the interval of split thresholds -----

  /** The upper end is 3.2 times the select threshold, rounded down, but leaves room for one split threshold. */
  lemma UpperSplitLaw(x: Problem, select: int)
    ensures x.UpperSplit(select) >= x.opts.factor + 2
    ensures x.UpperSplit(select) > x.opts.factor + 2 ==>
      5 * x.UpperSplit(select) <= 16 * select < 5 * x.UpperSplit(select) + 5
    ensures 5 * (x.opts.factor + 3) <= 16 * select ==> x.UpperSplit(select) > x.opts.factor + 2
  {
    var r := (select as real * 3.2).Floor;
    assert r as real <= select as real * 3.2 < r as real + 1.0;
    assert 5 * r <= 16 * select < 5 * r + 5;
  }

  // ----- the guided step -----

  /** The step after `n` turns in one direction. */
  function StepAfter(step: int, up: bool, n: nat): int {
    if n == 0 then step else GuidedStep(StepAfter(step, up, n - 1), up)
  }

  function Power2(n: nat): int {
    if n == 0 then 1 else 2 * Power2(n - 1)
  }

  lemma {:induction false} SmallPowers(n: nat)
    ensures Power2(n) >= 1 && (n < 7 ==> Power2(n) < 128) && Power2(7) == 128
  {
    if n > 0 {
      SmallPowers(n - 1);
    }
    assert Power2(1) == 2 && Power2(2) == 4 && Power2(3) == 8 && Power2(4) == 16;
    assert Power2(5) == 32 && Power2(6) == 64;
  }

  /** After a change of direction the step starts at one and doubles turn by turn, up to 128. */
  lemma {:induction false} StepsDouble(step: int, up: bool, n: nat)
    requires n > 0 && if up then step <= 0 else step >= 0
    ensures StepAfter(step, up, n) == (if up then 1 else -1) * Power2(if n <= 8 then n - 1 else 7)
    decreases n
  {
    SmallPowers(if n <= 8 then n - 1 else 7);
    if n > 1 {
      StepsDouble(step, up, n - 1);
      SmallPowers(if n - 1 <= 8 then n - 2 else 7);
    } else {
      assert StepAfter(step, up, 0) == step;
    }
  }

  /** No step yet, or a power of two up to 128 in either direction. */
  predicate IsGuidedStep(step: int) {
    (if step < 0 then -step else step) in {0, 1, 2, 4, 8, 16, 32, 64, 128}
  }

  /** A step goes in its direction. */
  lemma StepDirection(step: int, up: bool)
    requires IsGuidedStep(step)
    ensures IsGuidedStep(GuidedStep(step, up)) && if up then GuidedStep(step, up) > 0 else GuidedStep(step, up) < 0
  {
  }

  // ----- one turn -----

  /** The last split threshold met is under 1.8 times the select threshold. */
  ghost predicate TooLow(x: Problem, select: int)
    requires x.Valid()
  {
    5 * x.SplitAt(select) < 9 * select
  }

  /** It is over 2.2 times the select threshold. */
  ghost predicate TooHigh(x: Problem, select: int)
    requires x.Valid()
  {
    5 * x.SplitAt(select) > 11 * select
  }

  /** Some pair tried is within two per cent of the target. */
  ghost predicate NearEnough(x: Problem, tried: set<Thresholds>)
    requires x.Valid()
  {
    exists t :: t in tried && 50.0 * x.Deviation(t) <= x.ratio
  }

  lemma RatioCompare(split: int, select: int)
    requires select > 0
    ensures split as real / select as real < 1.8 <==> 5 * split < 9 * select
    ensures split as real / select as real > 2.2 <==> 5 * split > 11 * select
  {
    QuotientCompare(split as real, select as real, 1.8);
    QuotientCompare(split as real, select as real, 2.2);
  }

  lemma QuotientCompare(a: real, b: real, c: real)
    requires b > 0.0
    ensures a / b < c <==> a < c * b
    ensures a / b > c <==> a > c * b
  {
    var q := a / b;
    assert q * b == a;
    if q < c {
      ProductsOrdered(q, c, b);
    } else if q > c {
      ProductsOrdered(c, q, b);
    }
  }

  lemma OffsetIff(diff: real, ratio: real)
    requires diff >= 0.0 && ratio >= 0.0
    ensures OffsetTooBig(diff, ratio) <==> 50.0 * diff > ratio
  {
    if ratio > 0.0 {
      QuotientCompare(diff, ratio, 0.02);
    }
  }

  lemma FarOffUnlessNear(x: Problem, tried: set<Thresholds>)
    requires x.Valid()
    ensures x.FarOff(tried) <==> !NearEnough(x, tried)
  {
    forall t | t in tried
      ensures OffsetTooBig(x.Deviation(t), x.ratio) <==> 50.0 * x.Deviation(t) > x.ratio
    {
      OffsetIff(x.Deviation(t), x.ratio);
    }
  }

  /** From `b` to `c` the select threshold moves by the next step, up or down, and stays in range. */
  predicate Moves(b: Turn, c: Turn, up: bool, vectorCount: nat) {
    && c == b.(step := StepAfter(b.step, up, 1), select := c.select)
    && c.select == if up then (if b.select + c.step > vectorCount then vectorCount else b.select + c.step)
                   else if b.select + c.step < 1 then 1 else b.select + c.step
  }

  /**
    The guided phase: down from a split threshold that is too low, up from one that is too high. In between the search
    is done when a pair is near enough; otherwise the random phase begins.
   */
  lemma GuidedLaw(x: Problem, b: Turn)
    requires x.Valid() && x.InRange(b.select) && b.random == 0 && IsGuidedStep(b.step)
    ensures TooLow(x, b.select) ==> x.Guided(b).Some? && Moves(b, x.Guided(b).value, false, x.vectorCount)
    ensures TooHigh(x, b.select) ==> x.Guided(b).Some? && Moves(b, x.Guided(b).value, true, x.vectorCount)
    ensures !TooLow(x, b.select) && !TooHigh(x, b.select) ==>
      x.Guided(b) == if NearEnough(x, x.Tried(b.used)) then None else Some(b.(random := 1))
  {
    var up := TooHigh(x, b.select);
    RatioCompare(x.SplitAt(b.select), b.select);
    StepDirection(b.step, up);
    assert StepAfter(b.step, up, 1) == GuidedStep(b.step, up) by {
      assert StepAfter(b.step, up, 0) == b.step;
    }
    FarOffUnlessNear(x, x.Tried(b.used));
  }

  /** The first turn tries the given threshold, or all vectors when that is larger. */
  lemma FirstLaw(x: Problem)
    ensures x.First().select <= x.opts.select && x.First().select <= x.vectorCount
    ensures x.First().select in {x.opts.select, x.vectorCount}
    ensures x.First() == Turn(x.First().select, x.First().select, 0, 0, {})
  {
  }

  predicate StepsAtRandom(x: Problem, c: Turn, choice: int, b: Turn) {
    && b == Turn(b.select, b.select, choice, c.random + 1, c.used) && x.InRange(b.select)
    && (x.InRange(c.select + choice) ==> b.select == c.select + choice)
  }

  /**
    The random phase steps by up to eight in either direction, inside the range, and counts its tries; with none left, a
    threshold that stays ends the search.
   */
  lemma RandomLaw(x: Problem, c: Turn, choice: int)
    requires x.Valid() && x.InRange(c.select) && IsChoice(choice)
    ensures IsChoice(choice) <==> choice in {-8, -7, -6, -5, -4, -3, -2, -1, 1, 2, 3, 4, 5, 6, 7, 8}
    ensures 0 < c.random < x.maxRandomTry ==>
      x.Stepped(c, choice).Some? && StepsAtRandom(x, c, choice, x.Stepped(c, choice).value)
    ensures !(0 < c.random < x.maxRandomTry) ==>
      x.Stepped(c, choice) == if c.last == c.select then None else Some(c.(last := c.select))
  {
  }

  /** What holds between two turns: the guided steps are powers of two, and the last threshold is the one to try. */
  ghost predicate Steady(a: Turn) {
    a.random >= 0 && a.last == a.select && (a.random == 0 ==> IsGuidedStep(a.step))
  }

  lemma TurnSteady(x: Problem, a: Turn, choice: int)
    requires x.Valid() && x.InRange(a.select) && Steady(a) && x.Next(a, choice).Some?
    ensures Steady(x.Next(a, choice).value)
  {
    if a.random == 0 {
      StepDirection(a.step, true);
      StepDirection(a.step, false);
    }
  }

  lemma {:induction false} PathSteady(x: Problem, turns: seq<Turn>)
    requires x.Valid() && x.IsPath(turns)
    ensures Steady(turns[|turns| - 1])
    decreases |turns|
  {
    var n := |turns| - 1;
    if n > 0 {
      PathSteady(x, turns[..n]);
      assert x.Goes(turns[n - 1], turns[n]);
      var choice :| IsChoice(choice) && x.Next(turns[n - 1], choice) == Some(turns[n]);
      TurnSteady(x, turns[n - 1], choice);
    }
  }

  /**
    A search that has tried something ends because a pair is near enough, because the guided phase is stuck at an end of
    the range, or because the random tries are used up.
   */
  lemma WhyEnded(x: Problem, turns: seq<Turn>)
    requires x.Valid() && x.IsSearch(turns) && x.opts.select >= 1
    ensures var a := turns[|turns| - 1];
      || NearEnough(x, x.Tried(x.Visited(turns)))
      || (a.select == 1 && TooLow(x, 1)) || (a.select == x.vectorCount && TooHigh(x, x.vectorCount))
      || a.random >= x.maxRandomTry || x.maxRandomTry <= 1
  {
    var a := turns[|turns| - 1];
    x.PathFacts(turns);
    x.VisitedMore(turns);
    PathSteady(x, turns);
    var b := x.Seen(a);
    assert b.used == x.Visited(turns);
    assert IsChoice(1) && x.Next(a, 1) == None;
    if b.random == 0 {
      GuidedLaw(x, b);
      if TooLow(x, b.select) || TooHigh(x, b.select) {
        StepDirection(b.step, TooHigh(x, b.select));
        assert StepAfter(b.step, TooHigh(x, b.select), 0) == b.step;
      }
    }
  }
}
