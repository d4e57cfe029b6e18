/** Where headers, answers and timeouts come from. */
module AggregatorOrigins {
  import opened Bytes
  import opened Options
  import opened RemoteSearchQuery
  import opened AggregatorContext
  import opened Resources
  import opened AggregatorProtocol

  // ----- requests -----

  /** What the `Receive` steps among the first `n` brought, in order. */
  function Received(steps: seq<Step>, n: nat): seq<(Header, nat)>
    requires n <= |steps|
    decreases n
  {
    if n == 0 then []
    else Received(steps, n - 1) + if steps[n - 1].Receive? then [(steps[n - 1].header, steps[n - 1].servers)] else []
  }

  /** How many of the first `n` steps register a callback of request `r`. */
  function Registrations(steps: seq<Step>, n: nat, r: nat): nat
    requires n <= |steps|
    decreases n
  {
    if n == 0 then 0
    else Registrations(steps, n - 1, r) + if steps[n - 1].Register? && steps[n - 1].request == r then 1 else 0
  }

  /** How many register any callback. */
  function AllRegistrations(steps: seq<Step>, n: nat): nat
    requires n <= |steps|
    decreases n
  {
    if n == 0 then 0 else AllRegistrations(steps, n - 1) + if steps[n - 1].Register? then 1 else 0
  }

  /** The requests of a state are those received: same order, same header, one slot for every server. */
  ghost predicate AsReceived(s: State, received: seq<(Header, nat)>) {
    && |s.requests| == |received|
    && forall r :: 0 <= r < |received| ==>
      s.requests[r].header == received[r].0 && |s.requests[r].slots| == received[r].1
  }

  lemma {:induction false} RequestsReceived(steps: seq<Step>, states: seq<State>, n: nat)
    requires IsRun(steps, states) && n <= |steps|
    ensures AsReceived(states[n], Received(steps, n))
    decreases n
  {
    if n > 0 {
      assert StepAt(steps, states, n - 1);
      RequestsReceived(steps, states, n - 1);
      StepReceived(states[n - 1], steps[n - 1], Received(steps, n - 1));
    }
  }

  lemma StepReceived(s: State, step: Step, received: seq<(Header, nat)>)
    requires Enabled(s, step) && AsReceived(s, received)
    ensures AsReceived(Next(s, step), received + if step.Receive? then [(step.header, step.servers)] else [])
  {
  }

  lemma {:induction false} RegistrationsCounted(steps: seq<Step>, states: seq<State>, n: nat)
    requires IsRun(steps, states) && n <= |steps|
    ensures forall r :: 0 <= r < |states[n].requests| ==> states[n].requests[r].registered == Registrations(steps, n, r)
    ensures forall r: nat :: r >= |states[n].requests| ==> Registrations(steps, n, r) == 0
    ensures states[n].registrations == AllRegistrations(steps, n)
    decreases n
  {
    if n > 0 {
      assert StepAt(steps, states, n - 1);
      RegistrationsCounted(steps, states, n - 1);
    }
  }

  // ----- callbacks in the table -----

  /** Step `j` registers callback `c` under the id `rid`. */
  ghost predicate RegisteredAt(steps: seq<Step>, j: nat, c: Callback, rid: nat)
    requires j < |steps|
  {
    && steps[j].Register? && c == Callback(steps[j].request, Registrations(steps, j, steps[j].request))
    && rid == AllRegistrations(steps, j) + 1
  }

  ghost predicate RegisteredBefore(steps: seq<Step>, n: nat, c: Callback, rid: nat)
    requires n <= |steps|
  {
    exists j :: 0 <= j < n && RegisteredAt(steps, j, c, rid)
  }

  /** What stands in the table was registered there. */
  lemma {:induction false} TableOrigin(steps: seq<Step>, states: seq<State>, n: nat, rid: nat)
    requires IsRun(steps, states) && n <= |steps| && states[n].registrations < UINT32
    requires rid in states[n].table.resources
    ensures RegisteredBefore(steps, n, states[n].table.resources[rid], rid)
    decreases n
  {
    if n > 0 {
      var s, step := states[n - 1], steps[n - 1];
      assert StepAt(steps, states, n - 1);
      RegistrationsGrow(s, step);
      RunIds(steps, states, n - 1);
      RegistrationsCounted(steps, states, n - 1);
      if rid in s.table.resources && states[n].table.resources[rid] == s.table.resources[rid] {
        TableOrigin(steps, states, n - 1, rid);
        var j :| 0 <= j < n - 1 && RegisteredAt(steps, j, s.table.resources[rid], rid);
      } else {
        DrawFresh(s);
        assert RegisteredAt(steps, n - 1, states[n].table.resources[rid], rid);
      }
    }
  }

  /** The ids of a run are those drawn so far. */
  lemma {:induction false} RunIds(steps: seq<Step>, states: seq<State>, n: nat)
    requires IsRun(steps, states) && n <= |steps| && states[n].registrations < UINT32
    ensures IdsOk(states[n])
    decreases n
  {
    if n > 0 {
      assert StepAt(steps, states, n - 1);
      RegistrationsGrow(states[n - 1], steps[n - 1]);
      RunIds(steps, states, n - 1);
      if steps[n - 1].Register? {
        DrawFresh(states[n - 1]);
      }
    }
  }

  // ----- answers -----

  /**
    In state `s` the step hands callback `c` out with `answer`: a response to the id under which it stands, a timeout
    of that id, which brings the status 1 and no results, or a send that has failed, which brings the status 2.
   */
  ghost predicate HandsOut(s: State, step: Step, c: Callback, answer: SearchResult) {
    match step
    case Respond(rid, given) => StandsUnder(s, c, rid) && answer == given
    case FireNext => s.expired != [] && StandsUnder(s, c, s.expired[0].id) && answer == SearchResult(1, [])
    case FailSend(r, i) => c == Callback(r, i) && answer == SearchResult(2, [])
    case _ => false
  }

  ghost predicate StandsUnder(s: State, c: Callback, rid: nat) {
    rid in s.table.resources && s.table.resources[rid] == c
  }

  /** A step leaves callbacks and answers of the frames alone and adds at most the one it hands out. */
  lemma StepFrames(s: State, step: Step)
    requires Enabled(s, step)
    ensures |s.frames| <= |Next(s, step).frames| <= |s.frames| + 1
    ensures forall t :: 0 <= t < |s.frames| ==> SameCall(s.frames[t], Next(s, step).frames[t])
    ensures |Next(s, step).frames| > |s.frames| ==>
      HandsOut(s, step, Next(s, step).frames[|s.frames|].callback, Next(s, step).frames[|s.frames|].answer)
  {
  }

  ghost predicate SameCall(f: Frame, g: Frame) {
    f.callback == g.callback && f.answer == g.answer
  }

  /** A step that hands something out adds it. */
  lemma HandsOutAdds(s: State, step: Step, c: Callback, answer: SearchResult)
    requires Enabled(s, step) && HandsOut(s, step, c, answer)
    ensures Next(s, step).frames == s.frames + [Frame(c, answer, Writing)]
  {
  }

  /** Step `j` is where frame `t` comes from. */
  ghost predicate OriginOf(steps: seq<Step>, states: seq<State>, j: nat, t: nat, c: Callback, answer: SearchResult)
    requires |states| == |steps| + 1
  {
    j < |steps| && |states[j].frames| == t && HandsOut(states[j], steps[j], c, answer)
  }

  /** Every frame goes back to the step that handed its callback out, with the answer it had then. */
  lemma {:induction false} FrameOrigin(steps: seq<Step>, states: seq<State>, n: nat, t: nat) returns (j: nat)
    requires IsRun(steps, states) && n <= |steps| && t < |states[n].frames|
    ensures j < n && OriginOf(steps, states, j, t, states[n].frames[t].callback, states[n].frames[t].answer)
    decreases n
  {
    assert StepAt(steps, states, n - 1);
    StepFrames(states[n - 1], steps[n - 1]);
    if t < |states[n - 1].frames| {
      j := FrameOrigin(steps, states, n - 1, t);
      assert SameCall(states[n - 1].frames[t], states[n].frames[t]);
    } else {
      j := n - 1;
    }
  }

  // ----- timeouts -----

  /** Step `j` registered the item, which expires when its timeout is over. */
  ghost predicate ItemFrom(steps: seq<Step>, j: nat, item: Item)
    requires j < |steps|
  {
    && steps[j].Register? && steps[j].timeout > 0 && item.id == AllRegistrations(steps, j) + 1
    && item.expire == steps[j].now + steps[j].timeout
  }

  ghost predicate ItemBefore(steps: seq<Step>, n: nat, item: Item)
    requires n <= |steps|
  {
    exists j :: 0 <= j < n && ItemFrom(steps, j, item)
  }

  /** Step `k` took the item, which had expired by then. */
  ghost predicate TakenAt(steps: seq<Step>, k: nat, item: Item)
    requires k < |steps|
  {
    steps[k].TakeExpired? && item.expire <= steps[k].now && ItemBefore(steps, k, item)
  }

  ghost predicate TakenBefore(steps: seq<Step>, n: nat, item: Item)
    requires n <= |steps|
  {
    exists k :: 0 <= k < n && TakenAt(steps, k, item)
  }

  ghost predicate ItemsOk(steps: seq<Step>, s: State, n: nat)
    requires n <= |steps|
  {
    && (forall i :: 0 <= i < |s.table.timeouts| ==> ItemBefore(steps, n, s.table.timeouts[i]))
    && (forall i :: 0 <= i < |s.expired| ==> TakenBefore(steps, n, s.expired[i]))
  }

  /** Every timeout waiting was registered, and every one taken had expired. */
  lemma {:induction false} ItemOrigins(steps: seq<Step>, states: seq<State>, n: nat)
    requires IsRun(steps, states) && n <= |steps| && states[n].registrations < UINT32
    ensures ItemsOk(steps, states[n], n)
    decreases n
  {
    if n > 0 {
      assert StepAt(steps, states, n - 1);
      RegistrationsGrow(states[n - 1], steps[n - 1]);
      ItemOrigins(steps, states, n - 1);
      TimeoutsLater(steps, states, n);
      ExpiredLater(steps, states, n);
    }
  }

  lemma TimeoutsLater(steps: seq<Step>, states: seq<State>, n: nat)
    requires IsRun(steps, states) && 0 < n <= |steps| && states[n].registrations < UINT32
    requires StepAt(steps, states, n - 1) && ItemsOk(steps, states[n - 1], n - 1)
    ensures forall i :: 0 <= i < |states[n].table.timeouts| ==> ItemBefore(steps, n, states[n].table.timeouts[i])
  {
    var s, s', step := states[n - 1], states[n], steps[n - 1];
    RegistrationsGrow(s, step);
    RunIds(steps, states, n - 1);
    RegistrationsCounted(steps, states, n - 1);
    forall i | 0 <= i < |s'.table.timeouts|
      ensures ItemBefore(steps, n, s'.table.timeouts[i])
    {
      if i < |s.table.timeouts| && s'.table.timeouts[i] == s.table.timeouts[i] {
        EarlierItem(steps, n, s.table.timeouts[i]);
      } else if step.TakeExpired? {
        var e := Expired(s.table.timeouts, step.now);
        assert s'.table.timeouts[i] == s.table.timeouts[e + i];
        EarlierItem(steps, n, s.table.timeouts[e + i]);
      } else {
        DrawFresh(s);
        assert ItemFrom(steps, n - 1, s'.table.timeouts[i]);
      }
    }
  }

  lemma EarlierItem(steps: seq<Step>, n: nat, item: Item)
    requires 0 < n <= |steps| && ItemBefore(steps, n - 1, item)
    ensures ItemBefore(steps, n, item)
  {
    var j :| 0 <= j < n - 1 && ItemFrom(steps, j, item);
  }

  lemma ExpiredLater(steps: seq<Step>, states: seq<State>, n: nat)
    requires IsRun(steps, states) && 0 < n <= |steps|
    requires StepAt(steps, states, n - 1) && ItemsOk(steps, states[n - 1], n - 1)
    ensures forall i :: 0 <= i < |states[n].expired| ==> TakenBefore(steps, n, states[n].expired[i])
  {
    var s, s', step := states[n - 1], states[n], steps[n - 1];
    StepExpired(s, step);
    forall i | 0 <= i < |s'.expired|
      ensures TakenBefore(steps, n, s'.expired[i])
    {
      var was := if step.FireNext? then i + 1 else i;
      if was < |s.expired| {
        assert s'.expired[i] == s.expired[was];
        var k :| 0 <= k < n - 1 && TakenAt(steps, k, s.expired[was]);
      } else if step.TakeExpired? {
        assert s'.expired[i] == s.table.timeouts[i - |s.expired|];
        assert TakenAt(steps, n - 1, s'.expired[i]);
      }
    }
  }

  lemma StepExpired(s: State, step: Step)
    requires Enabled(s, step)
    ensures Next(s, step).expired ==
      if step.FireNext? then s.expired[1..]
      else if step.TakeExpired? then s.expired + s.table.timeouts[..Expired(s.table.timeouts, step.now)]
      else s.expired
  {
  }

  lemma {:induction false} AllGrow(steps: seq<Step>, i: nat, j: nat)
    requires i <= j <= |steps|
    ensures AllRegistrations(steps, i) <= AllRegistrations(steps, j)
    ensures i < j && steps[i].Register? ==> AllRegistrations(steps, i) < AllRegistrations(steps, j)
    decreases j
  {
    if i < j {
      AllGrow(steps, i, j - 1);
    }
  }

  /** No two registrations have the same place in the count. */
  lemma SamePlace(steps: seq<Step>, i: nat, j: nat)
    requires i < |steps| && j < |steps| && steps[i].Register? && steps[j].Register?
    requires AllRegistrations(steps, i) == AllRegistrations(steps, j)
    ensures i == j
  {
    if i < j {
      AllGrow(steps, i, j);
    } else if j < i {
      AllGrow(steps, j, i);
    }
  }

  /**
    A callback is timed out only after its own timeout is over: the step that registered it gave one, and a checker that
    looked at the clock no earlier took it.
   */
  lemma NoEarlyTimeout(steps: seq<Step>, states: seq<State>, n: nat, c: Callback, answer: SearchResult)
    returns (j: nat, k: nat)
    requires IsRun(steps, states) && n < |steps| && states[n].registrations < UINT32
    requires steps[n].FireNext? && HandsOut(states[n], steps[n], c, answer)
    ensures j < k < n && RegisteredAt(steps, j, c, states[n].expired[0].id) && steps[j].timeout > 0
    ensures steps[k].TakeExpired? && steps[k].now >= steps[j].now + steps[j].timeout
  {
    var item := states[n].expired[0];
    ItemOrigins(steps, states, n);
    TableOrigin(steps, states, n, item.id);
    assert TakenBefore(steps, n, item);
    k :| 0 <= k < n && TakenAt(steps, k, item);
    var i :| 0 <= i < k && ItemFrom(steps, i, item);
    j :| 0 <= j < n && RegisteredAt(steps, j, c, item.id);
    SamePlace(steps, i, j);
  }

  // ----- the answer to a request -----

  /** `answers[i]` is what step `origins[i]` brought for server `i` of request `r`; no send failed. */
  ghost predicate AnsweredAt(steps: seq<Step>, states: seq<State>, n: nat, r: nat, answers: seq<SearchResult>,
      origins: seq<nat>)
    requires |states| == |steps| + 1
  {
    && |origins| == |answers|
    && forall i :: 0 <= i < |answers| ==> BroughtBy(steps, states, n, origins[i], Callback(r, i), answers[i])
  }

  ghost predicate BroughtBy(steps: seq<Step>, states: seq<State>, n: nat, j: nat, c: Callback, answer: SearchResult)
    requires |states| == |steps| + 1
  {
    j < n <= |steps| && !steps[j].FailSend? && HandsOut(states[j], steps[j], c, answer)
  }

  lemma AnswerOrigin(steps: seq<Step>, states: seq<State>, n: nat, r: nat, i: nat, answer: SearchResult)
    returns (j: nat)
    requires Proper(steps, states, n) && AnsweredBy(states[n], r, i, answer)
    ensures BroughtBy(steps, states, n, j, Callback(r, i), answer)
  {
    var s := states[n];
    var t :| 0 <= t < |s.frames| && s.frames[t].callback == Callback(r, i) && s.frames[t].answer == answer
      && s.frames[t].Counted();
    j := FrameOrigin(steps, states, n, t);
  }

  lemma AnswerOrigins(steps: seq<Step>, states: seq<State>, n: nat, r: nat,
      answers: seq<SearchResult>) returns (origins: seq<nat>)
    requires Proper(steps, states, n)
    requires forall i :: 0 <= i < |answers| ==> AnsweredBy(states[n], r, i, answers[i])
    ensures AnsweredAt(steps, states, n, r, answers, origins)
  {
    origins := [];
    for i := 0 to |answers|
      invariant |origins| == i
      invariant forall k :: 0 <= k < i ==> BroughtBy(steps, states, n, origins[k], Callback(r, k), answers[k])
    {
      var j := AnswerOrigin(steps, states, n, r, i, answers[i]);
      origins := origins + [j];
    }
  }

  /**
    The reply to the request that came `r`-th goes where that request said, and holds, server by server, the results
    that a response to the server's callback brought, or none when it timed out.
   */
  lemma AnsweredFromSteps(steps: seq<Step>, states: seq<State>, n: nat, r: nat)
    returns (answers: seq<SearchResult>, origins: seq<nat>)
    requires Proper(steps, states, n) && r < |states[n].requests| && states[n].requests[r].replies != []
    ensures r < |Received(steps, n)| && |answers| == Received(steps, n)[r].1
    ensures states[n].requests[r].replies ==
      [Reply(Received(steps, n)[r].0, SearchResult(0, InOrder(answers, |answers|)))]
    ensures AnsweredAt(steps, states, n, r, answers, origins)
  {
    RequestsReceived(steps, states, n);
    answers := AnsweredOnce(steps, states, n, r);
    origins := AnswerOrigins(steps, states, n, r, answers);
  }

  /** A response never reaches a request under the wrong number: the callback it meets was registered under its id. */
  lemma ResponseMeetsCallback(steps: seq<Step>, states: seq<State>, n: nat, c: Callback, answer: SearchResult)
    returns (j: nat)
    requires IsRun(steps, states) && n < |steps| && states[n].registrations < UINT32
    requires steps[n].Respond? && HandsOut(states[n], steps[n], c, answer)
    ensures j < n && RegisteredAt(steps, j, c, steps[n].rid) && answer == steps[n].answer
  {
    TableOrigin(steps, states, n, steps[n].rid);
    j :| 0 <= j < n && RegisteredAt(steps, j, c, steps[n].rid);
  }
}
