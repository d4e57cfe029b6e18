/** Failed sends: what they do to the promise that a callback is handed out at most once. */
module AggregatorFailures {
  import opened Bytes
  import opened Options
  import opened RemoteSearchQuery
  import opened AggregatorContext
  import opened Resources
  import opened AggregatorProtocol

  // ----- what every run keeps, failed sends or not -----

  ghost predicate HandedOut(s: State, c: Callback) {
    exists t :: 0 <= t < |s.frames| && s.frames[t].callback == c
  }

  ghost predicate HandedOutTwice(s: State, c: Callback) {
    exists t, u :: 0 <= t < u < |s.frames| && s.frames[t].callback == c && s.frames[u].callback == c
  }

  ghost predicate Waiting(s: State, c: Callback) {
    exists rid :: rid in s.table.resources && s.table.resources[rid] == c
  }

  /** The callback was handed out twice, or was handed out and still waits for an answer. */
  ghost predicate Doubled(s: State, c: Callback) {
    HandedOutTwice(s, c) || (HandedOut(s, c) && Waiting(s, c))
  }

  /** No callback gets lost: whatever was registered waits in the table or was handed out. */
  ghost predicate Kept(s: State) {
    && IdsOk(s)
    && forall r, i :: 0 <= r < |s.requests| && 0 <= i < s.requests[r].registered ==> KeptOne(s, r, i)
  }

  ghost predicate KeptOne(s: State, r: nat, i: nat) {
    Waiting(s, Callback(r, i)) || HandedOut(s, Callback(r, i))
  }

  /** A step takes no frame away, and takes a callback from the table only to hand it out. */
  lemma StepMoves(s: State, step: Step, c: Callback)
    requires IdsOk(s) && Enabled(s, step) && Next(s, step).registrations < UINT32
    ensures HandedOut(s, c) ==> HandedOut(Next(s, step), c)
    ensures HandedOutTwice(s, c) ==> HandedOutTwice(Next(s, step), c)
    ensures Waiting(s, c) ==> Waiting(Next(s, step), c) || HandedOut(Next(s, step), c)
    ensures Doubled(s, c) ==> Doubled(Next(s, step), c)
  {
    var s' := Next(s, step);
    assert forall t :: 0 <= t < |s.frames| ==> t < |s'.frames| && s'.frames[t].callback == s.frames[t].callback;
    if step.Register? {
      DrawFresh(s);
    }
    if rid :| rid in s.table.resources && s.table.resources[rid] == c {
      if rid in s'.table.resources {
        assert s'.table.resources[rid] == c;
      } else {
        assert |s'.frames| == |s.frames| + 1 && s'.frames[|s.frames|].callback == c;
      }
    }
  }

  lemma StepIds(s: State, step: Step)
    requires IdsOk(s) && Enabled(s, step) && Next(s, step).registrations < UINT32
    ensures IdsOk(Next(s, step))
  {
    if step.Register? {
      DrawFresh(s);
    }
  }

  lemma StepKept(s: State, step: Step)
    requires Kept(s) && Enabled(s, step) && Next(s, step).registrations < UINT32
    ensures Kept(Next(s, step))
  {
    var s' := Next(s, step);
    StepIds(s, step);
    forall r, i | 0 <= r < |s'.requests| && 0 <= i < s'.requests[r].registered
      ensures KeptOne(s', r, i)
    {
      StepMoves(s, step, Callback(r, i));
      if r < |s.requests| && i < s.requests[r].registered {
        assert KeptOne(s, r, i);
      } else {
        RegisterWaits(s, step, r, i);
      }
    }
  }

  /** A new registration waits in the table. */
  lemma RegisterWaits(s: State, step: Step, r: nat, i: nat)
    requires IdsOk(s) && Enabled(s, step) && Next(s, step).registrations < UINT32
    requires r < |Next(s, step).requests| && i < Next(s, step).requests[r].registered
    requires r < |s.requests| ==> i >= s.requests[r].registered
    ensures Waiting(Next(s, step), Callback(r, i))
  {
    var s' := Next(s, step);
    if step.Register? {
      DrawFresh(s);
      assert s'.table.resources[s.registrations + 1] == Callback(r, i);
    }
  }

  /** A failed send hands a callback out and leaves it waiting, or hands it out again. */
  lemma FailSendDoubles(s: State, r: nat, i: nat)
    requires Kept(s) && Enabled(s, FailSend(r, i))
    ensures Doubled(Next(s, FailSend(r, i)), Callback(r, i))
  {
    var s', c := Next(s, FailSend(r, i)), Callback(r, i);
    assert KeptOne(s, r, i);
    assert s'.frames[|s.frames|].callback == c;
    if rid :| rid in s.table.resources && s.table.resources[rid] == c {
      assert rid in s'.table.resources && s'.table.resources[rid] == c;
    } else {
      var t :| 0 <= t < |s.frames| && s.frames[t].callback == c;
      assert s'.frames[t].callback == c;
    }
  }

  lemma {:induction false} RunKept(steps: seq<Step>, states: seq<State>, n: nat)
    requires IsRun(steps, states) && n < |states| && states[n].registrations < UINT32
    ensures Kept(states[n])
    decreases n
  {
    if n > 0 {
      assert StepAt(steps, states, n - 1);
      RegistrationsGrow(states[n - 1], steps[n - 1]);
      RunKept(steps, states, n - 1);
      StepKept(states[n - 1], steps[n - 1]);
    }
  }

  /** Once a send has failed, its callback is doubled for good. */
  lemma {:induction false} FailureStays(steps: seq<Step>, states: seq<State>, j: nat, n: nat)
    requires IsRun(steps, states) && j < n < |states| && states[n].registrations < UINT32 && steps[j].FailSend?
    ensures Doubled(states[n], Callback(steps[j].request, steps[j].server))
    decreases n
  {
    assert StepAt(steps, states, n - 1);
    RegistrationsGrow(states[n - 1], steps[n - 1]);
    RunKept(steps, states, n - 1);
    if n - 1 == j {
      FailSendDoubles(states[j], steps[j].request, steps[j].server);
    } else {
      FailureStays(steps, states, j, n - 1);
      StepMoves(states[n - 1], steps[n - 1], Callback(steps[j].request, steps[j].server));
    }
  }

  // ----- continuations -----

  ghost predicate NoneTwice(s: State) {
    forall t, u :: 0 <= t < u < |s.frames| ==> s.frames[t].callback != s.frames[u].callback
  }

  /** A longer run that starts with `steps`. */
  ghost predicate Continues(steps: seq<Step>, states: seq<State>, more: seq<Step>, ext: seq<State>) {
    && IsRun(more, ext) && |steps| <= |more| && |states| <= |ext| && more[..|steps|] == steps
      && ext[..|states|] == states
    && ext[|more|].registrations < UINT32
  }

  /** One in which no further send fails. */
  ghost predicate ContinuesQuietly(steps: seq<Step>, states: seq<State>, more: seq<Step>, ext: seq<State>) {
    Continues(steps, states, more, ext) && forall i :: |steps| <= i < |more| ==> !more[i].FailSend?
  }

  /** One in which nothing happens any more but timeouts. */
  ghost predicate OnlyTimesOut(steps: seq<Step>, states: seq<State>, more: seq<Step>, ext: seq<State>) {
    Continues(steps, states, more, ext) && forall i :: |steps| <= i < |more| ==>
      more[i].TakeExpired? || more[i].FireNext?
  }

  lemma QuietRun(steps: seq<Step>, states: seq<State>, more: seq<Step>, ext: seq<State>)
    requires NoFailedSend(steps) && ContinuesQuietly(steps, states, more, ext)
    ensures NoneTwice(ext[|more|])
  {
    forall i | 0 <= i < |more|
      ensures !more[i].FailSend?
    {
      assert i < |steps| ==> more[..|steps|][i] == steps[i];
    }
    forall t, u | 0 <= t < u < |ext[|more|].frames|
      ensures ext[|more|].frames[t].callback != ext[|more|].frames[u].callback
    {
      HandedOutAtMostOnce(more, ext, |more|, t, u);
    }
  }

  lemma Extended(steps: seq<Step>, states: seq<State>, step: Step)
    requires IsRun(steps, states) && Enabled(states[|steps|], step)
    ensures IsRun(steps + [step], states + [Next(states[|steps|], step)])
  {
    var ext := states + [Next(states[|steps|], step)];
    forall i | 0 <= i < |steps + [step]|
      ensures StepAt(steps + [step], ext, i)
    {
      assert i < |steps| ==> StepAt(steps, states, i);
    }
  }

  lemma TwiceSeen(s: State, c: Callback)
    requires HandedOutTwice(s, c)
    ensures !NoneTwice(s)
  {
  }

  /** A callback that waits after it was handed out is handed out again by the next answer to its id. */
  lemma AnswerDoubles(steps: seq<Step>, states: seq<State>, c: Callback) returns (more: seq<Step>, ext: seq<State>)
    requires IsRun(steps, states) && states[|steps|].registrations < UINT32 && Doubled(states[|steps|], c)
    ensures ContinuesQuietly(steps, states, more, ext) && !NoneTwice(ext[|more|])
  {
    var s := states[|steps|];
    more, ext := steps, states;
    if HandedOutTwice(s, c) {
      TwiceSeen(s, c);
    } else {
      var rid: nat :| rid in s.table.resources && s.table.resources[rid] == c;
      var step := Respond(rid, SearchResult(SUCCESS, []));
      Extended(steps, states, step);
      var s' := Next(s, step);
      var t :| 0 <= t < |s.frames| && s.frames[t].callback == c;
      assert s'.frames[t].callback == c && s'.frames[|s.frames|].callback == c;
      more, ext := steps + [step], states + [s'];
    }
  }

  /** Whatever happens next, callbacks are handed out at most once exactly when no send has failed. */
  lemma HandedOutOnceIff(steps: seq<Step>, states: seq<State>)
    requires IsRun(steps, states) && states[|steps|].registrations < UINT32
    ensures (forall more, ext :: ContinuesQuietly(steps, states, more, ext) ==> NoneTwice(ext[|more|])) <==>
      NoFailedSend(steps)
  {
    if NoFailedSend(steps) {
      forall more, ext | ContinuesQuietly(steps, states, more, ext)
        ensures NoneTwice(ext[|more|])
      {
        QuietRun(steps, states, more, ext);
      }
    } else {
      var j :| 0 <= j < |steps| && steps[j].FailSend?;
      FailureStays(steps, states, j, |steps|);
      var more, ext := AnswerDoubles(steps, states, Callback(steps[j].request, steps[j].server));
    }
  }

  // ----- timeouts alone -----

  /** Every registration has a timeout. */
  ghost predicate TimeoutsSet(steps: seq<Step>) {
    forall i :: 0 <= i < |steps| && steps[i].Register? ==> steps[i].timeout > 0
  }

  ghost predicate HasItem(items: seq<Item>, rid: nat) {
    exists i :: 0 <= i < |items| && items[i].id == rid
  }

  /** Whatever waits will time out. */
  ghost predicate Timed(s: State) {
    forall rid :: rid in s.table.resources ==> HasItem(s.table.timeouts, rid) || HasItem(s.expired, rid)
  }

  lemma StepTimed(s: State, step: Step)
    requires Timed(s) && Enabled(s, step) && (step.Register? ==> step.timeout > 0)
    ensures Timed(Next(s, step))
  {
    var s' := Next(s, step);
    forall rid | rid in s'.table.resources
      ensures HasItem(s'.table.timeouts, rid) || HasItem(s'.expired, rid)
    {
      if rid !in s.table.resources {
        assert s'.table.timeouts[|s.table.timeouts|].id == rid;
      } else if i :| 0 <= i < |s.table.timeouts| && s.table.timeouts[i].id == rid {
        ItemStays(s, step, i);
      } else {
        var i :| 0 <= i < |s.expired| && s.expired[i].id == rid;
        if step.FireNext? {
          assert i > 0 && s'.expired[i - 1].id == rid;
        } else {
          assert s'.expired[i].id == rid;
        }
      }
    }
  }

  lemma ItemStays(s: State, step: Step, i: nat)
    requires Enabled(s, step) && i < |s.table.timeouts|
    ensures HasItem(Next(s, step).table.timeouts, s.table.timeouts[i].id)
      || HasItem(Next(s, step).expired, s.table.timeouts[i].id)
  {
    var s' := Next(s, step);
    if step.TakeExpired? {
      var n := Expired(s.table.timeouts, step.now);
      if i < n {
        assert s'.expired[|s.expired| + i] == s.table.timeouts[i];
      } else {
        assert s'.table.timeouts[i - n] == s.table.timeouts[i];
      }
    } else {
      assert s'.table.timeouts[i] == s.table.timeouts[i];
    }
  }

  lemma {:induction false} RunTimed(steps: seq<Step>, states: seq<State>, n: nat)
    requires IsRun(steps, states) && n < |states| && TimeoutsSet(steps)
    ensures Timed(states[n])
    decreases n
  {
    if n > 0 {
      assert StepAt(steps, states, n - 1);
      RunTimed(steps, states, n - 1);
      StepTimed(states[n - 1], steps[n - 1]);
    }
  }

  /** Late enough, everything has expired. */
  lemma {:induction false} AllExpired(items: seq<Item>) returns (now: nat)
    ensures forall later: nat :: later >= now ==> Expired(items, later) == |items|
  {
    now := 0;
    if items != [] {
      now := AllExpired(items[1..]);
      now := if now < items[0].expire then items[0].expire else now;
    }
  }

  /** Firing all that has expired empties the list. */
  lemma {:induction false} Drain(steps: seq<Step>, states: seq<State>, more: seq<Step>, ext: seq<State>)
    returns (more': seq<Step>, ext': seq<State>)
    requires OnlyTimesOut(steps, states, more, ext)
    ensures OnlyTimesOut(steps, states, more', ext')
    ensures ext'[|more'|].expired == [] && ext'[|more'|].table.timeouts == ext[|more|].table.timeouts
    decreases |ext[|more|].expired|
  {
    more', ext' := more, ext;
    if ext[|more|].expired != [] {
      Extended(more, ext, FireNext);
      more', ext' := Drain(steps, states, more + [FireNext], ext + [Next(ext[|more|], FireNext)]);
    }
  }

  /** After every timeout has fired, nothing waits. */
  lemma TimeOutAll(steps: seq<Step>, states: seq<State>) returns (more: seq<Step>, ext: seq<State>)
    requires IsRun(steps, states) && states[|steps|].registrations < UINT32 && TimeoutsSet(steps)
    ensures OnlyTimesOut(steps, states, more, ext) && ext[|more|].table.resources == map[]
  {
    var now := AllExpired(states[|steps|].table.timeouts);
    var step := TakeExpired(now);
    Extended(steps, states, step);
    more, ext := Drain(steps, states, steps + [step], states + [Next(states[|steps|], step)]);
    TimesOutKeepsSet(steps, states, more, ext);
    RunTimed(more, ext, |more|);
    assert forall rid :: rid in ext[|more|].table.resources ==> false;
  }

  lemma TimesOutKeepsSet(steps: seq<Step>, states: seq<State>, more: seq<Step>, ext: seq<State>)
    requires OnlyTimesOut(steps, states, more, ext) && TimeoutsSet(steps)
    ensures TimeoutsSet(more)
  {
    forall i | 0 <= i < |more| && more[i].Register?
      ensures more[i].timeout > 0
    {
      assert i < |steps| && more[..|steps|][i] == steps[i];
    }
  }

  /** Timeouts alone hand a callback out again, exactly when a send has failed. */
  lemma TimedOutOnceIff(steps: seq<Step>, states: seq<State>)
    requires IsRun(steps, states) && states[|steps|].registrations < UINT32 && TimeoutsSet(steps)
    ensures (forall more, ext :: OnlyTimesOut(steps, states, more, ext) ==> NoneTwice(ext[|more|])) <==>
      NoFailedSend(steps)
  {
    if NoFailedSend(steps) {
      forall more, ext | OnlyTimesOut(steps, states, more, ext)
        ensures NoneTwice(ext[|more|])
      {
        QuietRun(steps, states, more, ext);
      }
    } else {
      var j :| 0 <= j < |steps| && steps[j].FailSend?;
      var more, ext := TimeOutAll(steps, states);
      assert more[..|steps|][j] == steps[j];
      FailureStays(more, ext, j, |more|);
      TwiceSeen(ext[|more|], Callback(steps[j].request, steps[j].server));
    }
  }

  // ----- two answers -----

  const FAILS: seq<Step> := [Receive(Header(7, 7), 1), Register(0, 100, 0), FailSend(0, 0)]

  const TIMES_OUT: seq<Step> := [TakeExpired(100), FireNext]

  /** Frame `t` runs. */
  function FrameRuns(t: nat): seq<Step> {
    [WriteSlot(t), CountDown(t), Aggregate(t)]
  }

  /** One server, its send fails, and its timeout comes: the request is answered twice. */
  const TWO_ANSWERS: seq<Step> := FAILS + FrameRuns(0) + TIMES_OUT + FrameRuns(1)

  /** A state with one request to one server. */
  ghost predicate OneRequest(s: State) {
    |s.requests| == 1 && |s.requests[0].slots| == 1
  }

  /** `to` comes from `from` by a possible step. */
  ghost predicate Moves(from: State, step: Step, to: State) {
    Enabled(from, step) && to == Next(from, step)
  }

  /** Frame `t` of that request runs from its start to its reply. */
  lemma ToReply(s: State, t: nat) returns (s1: State, s2: State, s3: State)
    requires OneRequest(s) && s.requests[0].unfinished <= 1
    requires t < |s.frames| && s.frames[t].phase == Writing && s.frames[t].callback == Callback(0, 0)
    ensures Moves(s, WriteSlot(t), s1) && Moves(s1, CountDown(t), s2) && Moves(s2, Aggregate(t), s3)
    ensures OneRequest(s3) && s3.table == s.table && s3.expired == s.expired
      && |s3.requests[0].replies| == |s.requests[0].replies| + 1
    ensures |s3.frames| == |s.frames| && s3.frames[t].callback == Callback(0, 0)
      && (t > 0 ==> s3.frames[0] == s.frames[0])
    ensures s.requests[0].unfinished == 1 ==> s3.requests[0].unfinished == 0
  {
    s1 := Next(s, WriteSlot(t));
    s2 := Next(s1, CountDown(t));
    s3 := Next(s2, Aggregate(t));
  }

  /** The send fails. */
  lemma ToFailure() returns (s1: State, s2: State, s3: State)
    ensures Moves(Initial(), FAILS[0], s1) && Moves(s1, FAILS[1], s2) && Moves(s2, FAILS[2], s3)
    ensures OneRequest(s3) && s3.requests[0].unfinished == 1 && s3.requests[0].replies == []
    ensures s3.table.resources == map[1 := Callback(0, 0)] && s3.table.timeouts == [Item(1, 100)] && s3.expired == []
    ensures |s3.frames| == 1 && s3.frames[0].phase == Writing && s3.frames[0].callback == Callback(0, 0)
  {
    s1 := Next(Initial(), FAILS[0]);
    s2 := Next(s1, FAILS[1]);
    assert s2.table.resources == map[1 := Callback(0, 0)];
    s3 := Next(s2, FAILS[2]);
  }

  /** The timeout comes and hands the callback out again. */
  lemma ToTimeout(s: State) returns (s1: State, s2: State)
    requires s.table.resources == map[1 := Callback(0, 0)] && s.table.timeouts == [Item(1, 100)] && s.expired == []
    ensures Moves(s, TakeExpired(100), s1) && Moves(s1, FireNext, s2)
    ensures s2.requests == s.requests && |s2.frames| == |s.frames| + 1 && s2.frames[..|s.frames|] == s.frames
    ensures s2.frames[|s.frames|] == Frame(Callback(0, 0), SearchResult(TIMEOUT, []), Writing)
  {
    assert Expired([Item(1, 100)], 100) == 1 + Expired([], 100);
    s1 := Next(s, TakeExpired(100));
    assert s1.expired == [Item(1, 100)];
    s2 := Next(s1, FireNext);
  }

  /** Three steps more. */
  lemma ThreeMore(steps: seq<Step>, states: seq<State>, three: seq<Step>, s1: State, s2: State, s3: State)
    requires IsRun(steps, states) && |three| == 3
    requires Moves(states[|steps|], three[0], s1) && Moves(s1, three[1], s2) && Moves(s2, three[2], s3)
    ensures IsRun(steps + three, states + [s1, s2, s3])
  {
    Extended(steps, states, three[0]);
    Extended(steps + [three[0]], states + [s1], three[1]);
    Extended(steps + [three[0]] + [three[1]], states + [s1] + [s2], three[2]);
    assert steps + [three[0]] + [three[1]] + [three[2]] == steps + three;
    assert states + [s1] + [s2] + [s3] == states + [s1, s2, s3];
  }

  lemma TwoMore(steps: seq<Step>, states: seq<State>, two: seq<Step>, s1: State, s2: State)
    requires IsRun(steps, states) && |two| == 2
    requires Moves(states[|steps|], two[0], s1) && Moves(s1, two[1], s2)
    ensures IsRun(steps + two, states + [s1, s2])
  {
    Extended(steps, states, two[0]);
    Extended(steps + [two[0]], states + [s1], two[1]);
    assert steps + [two[0]] + [two[1]] == steps + two;
    assert states + [s1] + [s2] == states + [s1, s2];
  }

  /** Up to the first answer. */
  lemma FirstAnswer() returns (states: seq<State>)
    ensures IsRun(FAILS + FrameRuns(0), states)
    ensures var s := states[|FAILS + FrameRuns(0)|];
      && OneRequest(s) && |s.requests[0].replies| == 1 && s.requests[0].unfinished == 0
      && s.table.resources == map[1 := Callback(0, 0)] && s.table.timeouts == [Item(1, 100)] && s.expired == []
      && |s.frames| == 1 && s.frames[0].callback == Callback(0, 0)
  {
    var s1, s2, s3 := ToFailure();
    ThreeMore([], [Initial()], FAILS, s1, s2, s3);
    assert [] + FAILS == FAILS;
    var s4, s5, s6 := ToReply(s3, 0);
    ThreeMore(FAILS, [Initial()] + [s1, s2, s3], FrameRuns(0), s4, s5, s6);
    states := [Initial()] + [s1, s2, s3] + [s4, s5, s6];
  }

  /** And up to the second. */
  lemma FailedSendAnswersTwice() returns (states: seq<State>)
    ensures IsRun(TWO_ANSWERS, states)
    ensures var s := states[|TWO_ANSWERS|];
      OneRequest(s) && |s.requests[0].replies| == 2 && |s.frames| == 2 && s.frames[0].callback == s.frames[1].callback
  {
    states := FirstAnswer();
    var steps := FAILS + FrameRuns(0);
    var s7, s8 := ToTimeout(states[|steps|]);
    var s9, s10, s11 := ToReply(s8, 1);
    TwoMore(steps, states, TIMES_OUT, s7, s8);
    ThreeMore(steps + TIMES_OUT, states + [s7, s8], FrameRuns(1), s9, s10, s11);
    states := states + [s7, s8] + [s9, s10, s11];
  }
}
