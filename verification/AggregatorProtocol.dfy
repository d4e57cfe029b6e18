/** Requests, responses and timeouts as interleaved atomic steps, and every run of them. */
module AggregatorProtocol {
  import opened Bytes
  import opened Options
  import opened RemoteSearchQuery
  import opened AggregatorContext
  import opened Resources
  import Sets

  // ----- states -----

  /** Where the answer to a request goes. */
  datatype Header = Header(connection: nat, resource: nat)

  /** The callback for one server of one request. */
  datatype Callback = Callback(request: nat, server: nat)

  /** How far a running callback has got; the one that counted down to the end goes on to aggregate. */
  datatype Phase = Writing | Counting | Aggregating | Replied | Finished

  datatype Frame = Frame(callback: Callback, answer: SearchResult, phase: Phase)
  {
    predicate Counted() {
      phase != Writing && phase != Counting
    }

    predicate Last() {
      phase == Aggregating || phase == Replied
    }
  }

  datatype Reply = Reply(header: Header, result: SearchResult)

  datatype Request = Request(header: Header, slots: Slots, unfinished: nat, registered: nat, replies: seq<Reply>)

  /**
    `frames` keeps every callback that was ever run, `expired` the timeout items the checker has taken but not looked
    up.
   */
  datatype State = State(requests: seq<Request>, table: Table<Callback>, expired: seq<Item>, frames: seq<Frame>,
      registrations: nat)

  function Initial(): State {
    State([], Table(1, map[], []), [], [], 0)
  }

  // ----- steps -----

  datatype Step =
    | Receive(header: Header, servers: nat)
    | Register(request: nat, timeout: nat, now: nat)
    | Respond(rid: nat, answer: SearchResult)
    | TakeExpired(now: nat)
    | FireNext
    | WriteSlot(t: nat)
    | CountDown(t: nat)
    | Aggregate(t: nat)
    | FailSend(request: nat, server: nat)

  predicate Enabled(s: State, step: Step) {
    match step
    case Receive(_, servers) => servers < UINT32
    case Register(r, _, _) => r < |s.requests| && s.requests[r].registered < |s.requests[r].slots|
      && s.table.next < UINT32
    case Respond(_, _) => true
    case TakeExpired(_) => true
    case FireNext => s.expired != []
    case WriteSlot(t) => t < |s.frames| && s.frames[t].phase == Writing && InSlots(s, s.frames[t].callback)
    case CountDown(t) => t < |s.frames| && s.frames[t].phase == Counting && InSlots(s, s.frames[t].callback)
    case Aggregate(t) => t < |s.frames| && s.frames[t].phase == Aggregating && InSlots(s, s.frames[t].callback)
    case FailSend(r, i) => r < |s.requests| && i < s.requests[r].registered
  }

  predicate InSlots(s: State, c: Callback) {
    c.request < |s.requests| && c.server < |s.requests[c.request].slots|
  }

  /** `GetAndRemove` and, when something was there, a thread that runs the callback. */
  function HandOut(s: State, rid: nat, answer: SearchResult): State {
    if rid in s.table.resources then
      s.(table := s.table.Remove(rid), frames := s.frames + [Frame(s.table.resources[rid], answer, Writing)])
    else s
  }

  function SetPhase(s: State, t: nat, phase: Phase): State
    requires t < |s.frames|
  {
    s.(frames := s.frames[t := s.frames[t].(phase := phase)])
  }

  function SetRequest(s: State, r: nat, request: Request): State
    requires r < |s.requests|
  {
    s.(requests := s.requests[r := request])
  }

  function ReplyTo(q: Request): Reply {
    Reply(q.header, SearchResult(SUCCESS, Joined(q.slots, |q.slots|)))
  }

  function Next(s: State, step: Step): State
    requires Enabled(s, step)
  {
    match step
    case Receive(header, servers) =>
      s.(requests := s.requests + [Request(header, seq(servers, _ => None), servers % UINT32, 0, [])])
    case Register(r, timeout, now) =>
      var q := s.requests[r];
      SetRequest(s, r, q.(registered := q.registered + 1))
        .(table := s.table.Add(Callback(r, q.registered), timeout, now), registrations := s.registrations + 1)
    case Respond(rid, answer) => HandOut(s, rid, answer)
    case TakeExpired(now) =>
      var n := Expired(s.table.timeouts, now);
      s.(table := s.table.(timeouts := s.table.timeouts[n..]), expired := s.expired + s.table.timeouts[..n])
    case FireNext => HandOut(s.(expired := s.expired[1..]), s.expired[0].id, SearchResult(TIMEOUT, []))
    case WriteSlot(t) =>
      var c, q := s.frames[t].callback, s.requests[s.frames[t].callback.request];
      SetPhase(SetRequest(s, c.request, q.(slots := q.slots[c.server := Some(s.frames[t].answer)])), t, Counting)
    case CountDown(t) =>
      var c, q := s.frames[t].callback, s.requests[s.frames[t].callback.request];
      SetPhase(SetRequest(s, c.request, q.(unfinished := FetchSub(q.unfinished, 1))), t,
        if q.unfinished <= 1 then Aggregating else Finished)
    case Aggregate(t) =>
      var c, q := s.frames[t].callback, s.requests[s.frames[t].callback.request];
      SetPhase(SetRequest(s, c.request, q.(replies := q.replies + [ReplyTo(q)])), t, Replied)
    case FailSend(r, i) =>
      s.(frames := s.frames + [Frame(Callback(r, i), SearchResult(FAILED_NETWORK, []), Writing)])
  }

  ghost predicate StepAt(steps: seq<Step>, states: seq<State>, i: nat)
    requires i < |steps| < |states|
  {
    Enabled(states[i], steps[i]) && states[i + 1] == Next(states[i], steps[i])
  }

  /** A run: the states from the initial one on, each step possible when it comes. */
  ghost predicate IsRun(steps: seq<Step>, states: seq<State>) {
    && |states| == |steps| + 1 && states[0] == Initial()
    && forall i :: 0 <= i < |steps| ==> StepAt(steps, states, i)
  }

  // ----- what every run without a failed send keeps -----

  /** The servers of request `r` whose callbacks have counted down. */
  ghost function CountedServers(frames: seq<Frame>, r: nat): set<nat> {
    set t | 0 <= t < |frames| && frames[t].callback.request == r && frames[t].Counted() :: frames[t].callback.server
  }

  ghost predicate Registered(s: State, c: Callback) {
    && c.request < |s.requests|
    && c.server < s.requests[c.request].registered <= |s.requests[c.request].slots|
  }

  /** Ids are those drawn so far. */
  ghost predicate IdsOk(s: State) {
    && s.registrations < UINT32 && Counts(s.table.next, s.registrations)
    && forall rid :: rid in s.table.resources ==> rid <= s.registrations
  }

  ghost predicate ResourceOk(s: State, rid: nat)
    requires rid in s.table.resources
  {
    && Registered(s, s.table.resources[rid])
    && (forall rid' :: rid' in s.table.resources && rid' != rid ==> s.table.resources[rid'] != s.table.resources[rid])
    && forall t :: 0 <= t < |s.frames| ==> s.frames[t].callback != s.table.resources[rid]
  }

  ghost predicate FrameOk(s: State, t: nat)
    requires t < |s.frames|
  {
    var f := s.frames[t];
    && Registered(s, f.callback)
    && (f.phase != Writing ==> s.requests[f.callback.request].slots[f.callback.server] == Some(f.answer))
    && (f.Last() ==> s.requests[f.callback.request].unfinished == 0)
    && (f.phase == Replied ==> s.requests[f.callback.request].replies == [ReplyTo(s.requests[f.callback.request])])
  }

  /** Two running callbacks are different ones, and not both the last of a request. */
  ghost predicate Distinct(s: State, t: nat, u: nat)
    requires t < |s.frames| && u < |s.frames|
  {
    s.frames[t].callback != s.frames[u].callback
      && !(s.frames[t].Last() && s.frames[u].Last() && s.frames[t].callback.request == s.frames[u].callback.request)
  }

  ghost predicate RequestOk(s: State, r: nat)
    requires r < |s.requests|
  {
    var q := s.requests[r];
    && q.registered <= |q.slots| < UINT32
    && q.unfinished + |CountedServers(s.frames, r)| == |q.slots|
    && (q.unfinished == 0 && |q.slots| > 0 ==> HasLast(s, r))
    && (q.replies != [] ==> HasReplied(s, r))
  }

  ghost predicate HasLast(s: State, r: nat) {
    exists t :: 0 <= t < |s.frames| && s.frames[t].callback.request == r && s.frames[t].Last()
  }

  ghost predicate HasReplied(s: State, r: nat) {
    exists t :: 0 <= t < |s.frames| && s.frames[t].callback.request == r && s.frames[t].phase == Replied
  }

  ghost predicate Inv(s: State) {
    && IdsOk(s)
    && (forall rid :: rid in s.table.resources ==> ResourceOk(s, rid))
    && (forall t :: 0 <= t < |s.frames| ==> FrameOk(s, t))
    && (forall t, u :: 0 <= t < u < |s.frames| ==> Distinct(s, t, u))
    && (forall r :: 0 <= r < |s.requests| ==> RequestOk(s, r))
  }

  lemma InitialInv()
    ensures Inv(Initial())
  {
  }

  lemma ReceiveInv(s: State, header: Header, servers: nat)
    requires Inv(s) && servers < UINT32
    ensures Inv(Next(s, Receive(header, servers)))
  {
    var s' := Next(s, Receive(header, servers));
    forall rid | rid in s'.table.resources
      ensures ResourceOk(s', rid)
    {
      assert ResourceOk(s, rid);
    }
    forall t | 0 <= t < |s'.frames|
      ensures FrameOk(s', t)
    {
      assert FrameOk(s, t);
    }
    forall r | 0 <= r < |s'.requests|
      ensures RequestOk(s', r)
    {
      if r < |s.requests| {
        assert RequestOk(s, r);
        assert HasLast(s, r) ==> HasLast(s', r);
        assert HasReplied(s, r) ==> HasReplied(s', r);
      } else {
        NoneCounted(s, r);
      }
    }
    forall t, u | 0 <= t < u < |s'.frames|
      ensures Distinct(s', t, u)
    {
      assert Distinct(s, t, u);
    }
  }

  lemma NoneCounted(s: State, r: nat)
    requires Inv(s) && r >= |s.requests|
    ensures |CountedServers(s.frames, r)| == 0
  {
    forall t | 0 <= t < |s.frames|
      ensures s.frames[t].callback.request != r
    {
      assert FrameOk(s, t);
    }
  }

  /** A registration draws an id nobody holds. */
  lemma DrawFresh(s: State)
    requires IdsOk(s) && s.registrations + 1 < UINT32
    ensures s.table.next < UINT32 && Draw(s.table.next).0 == s.registrations + 1
      && Counts(Draw(s.table.next).1, s.registrations + 1)
    ensures s.registrations + 1 !in s.table.resources
  {
    DrawIsId(s.table.next, s.registrations);
  }

  lemma RegisterResources(s: State, r: nat, timeout: nat, now: nat)
    requires Inv(s) && Enabled(s, Register(r, timeout, now)) && s.registrations + 1 < UINT32
    ensures var s' := Next(s, Register(r, timeout, now)); forall rid :: rid in s'.table.resources ==>
      ResourceOk(s', rid)
  {
    var s', c, drawn := Next(s, Register(r, timeout, now)), Callback(r, s.requests[r].registered), s.registrations + 1;
    DrawFresh(s);
    assert s'.table.resources == s.table.resources[drawn := c];
    forall rid | rid in s.table.resources
      ensures s.table.resources[rid] != c && Registered(s', s.table.resources[rid])
    {
      assert ResourceOk(s, rid);
    }
    forall rid | rid in s'.table.resources
      ensures ResourceOk(s', rid)
    {
      if rid == drawn {
        forall t | 0 <= t < |s.frames|
          ensures s.frames[t].callback != c
        {
          assert FrameOk(s, t);
        }
        assert RequestOk(s, r);
      } else {
        assert ResourceOk(s, rid);
      }
    }
  }

  lemma RegisterInv(s: State, r: nat, timeout: nat, now: nat)
    requires Inv(s) && Enabled(s, Register(r, timeout, now)) && s.registrations + 1 < UINT32
    ensures Inv(Next(s, Register(r, timeout, now)))
  {
    var s' := Next(s, Register(r, timeout, now));
    DrawFresh(s);
    RegisterResources(s, r, timeout, now);
    forall t | 0 <= t < |s'.frames|
      ensures FrameOk(s', t)
    {
      assert FrameOk(s, t);
    }
    forall i | 0 <= i < |s'.requests|
      ensures RequestOk(s', i)
    {
      assert RequestOk(s, i);
      assert HasLast(s, i) ==> HasLast(s', i);
      assert HasReplied(s, i) ==> HasReplied(s', i);
    }
    forall t, u | 0 <= t < u < |s'.frames|
      ensures Distinct(s', t, u)
    {
      assert Distinct(s, t, u);
    }
  }

  lemma HandOutResources(s: State, rid: nat, answer: SearchResult)
    requires Inv(s) && rid in s.table.resources
    ensures var s' := HandOut(s, rid, answer); forall other :: other in s'.table.resources ==> ResourceOk(s', other)
  {
    var s' := HandOut(s, rid, answer);
    assert ResourceOk(s, rid);
    forall other | other in s'.table.resources
      ensures ResourceOk(s', other)
    {
      assert ResourceOk(s, other);
    }
  }

  lemma HandOutFrames(s: State, rid: nat, answer: SearchResult)
    requires Inv(s) && rid in s.table.resources
    ensures var s' := HandOut(s, rid, answer);
      && (forall t :: 0 <= t < |s'.frames| ==> FrameOk(s', t))
      && (forall t, u :: 0 <= t < u < |s'.frames| ==> Distinct(s', t, u))
  {
    var s' := HandOut(s, rid, answer);
    assert ResourceOk(s, rid);
    forall t | 0 <= t < |s'.frames|
      ensures FrameOk(s', t)
    {
      if t < |s.frames| {
        assert FrameOk(s, t);
      }
    }
    forall t, u | 0 <= t < u < |s'.frames|
      ensures Distinct(s', t, u)
    {
      if u < |s.frames| {
        assert Distinct(s, t, u);
      }
    }
  }

  lemma HandOutInv(s: State, rid: nat, answer: SearchResult)
    requires Inv(s)
    ensures Inv(HandOut(s, rid, answer))
  {
    var s' := HandOut(s, rid, answer);
    if rid in s.table.resources {
      HandOutResources(s, rid, answer);
      HandOutFrames(s, rid, answer);
      forall r | 0 <= r < |s'.requests|
        ensures RequestOk(s', r)
      {
        assert RequestOk(s, r);
        Sets.SameSize(CountedServers(s.frames, r), CountedServers(s'.frames, r)) by {
          CountedKept(s.frames, s'.frames, r);
        }
        assert forall t :: 0 <= t < |s.frames| ==> s'.frames[t] == s.frames[t];
        assert HasLast(s, r) ==> HasLast(s', r);
        assert HasReplied(s, r) ==> HasReplied(s', r);
      }
    }
  }

  ghost predicate CountedAt(frames: seq<Frame>, r: nat, t: nat, server: nat) {
    t < |frames| && frames[t].callback == Callback(r, server) && frames[t].Counted()
  }

  lemma CountedWitness(frames: seq<Frame>, r: nat, server: nat)
    ensures server in CountedServers(frames, r) <==> exists t :: CountedAt(frames, r, t, server)
  {
    if server in CountedServers(frames, r) {
      var t :| 0 <= t < |frames| && frames[t].callback.request == r && frames[t].Counted()
        && frames[t].callback.server == server;
      assert CountedAt(frames, r, t, server);
    }
    if t: nat :| CountedAt(frames, r, t, server) {
      assert frames[t].callback.server in CountedServers(frames, r);
    }
  }

  /** Frames that have not counted down do not matter. */
  lemma CountedKept(frames: seq<Frame>, frames': seq<Frame>, r: nat)
    requires |frames| <= |frames'|
    requires forall t :: 0 <= t < |frames'| && frames'[t].Counted() ==>
      t < |frames| && frames[t].callback == frames'[t].callback && frames[t].Counted()
    requires forall t :: 0 <= t < |frames| && frames[t].Counted() ==>
      frames'[t].callback == frames[t].callback && frames'[t].Counted()
    ensures forall server :: server in CountedServers(frames', r) <==> server in CountedServers(frames, r)
  {
    forall server
      ensures server in CountedServers(frames', r) <==> server in CountedServers(frames, r)
    {
      CountedWitness(frames, r, server);
      CountedWitness(frames', r, server);
      if t: nat :| CountedAt(frames', r, t, server) {
        assert CountedAt(frames, r, t, server);
      }
      if t: nat :| CountedAt(frames, r, t, server) {
        assert CountedAt(frames', r, t, server);
      }
    }
  }

  /** Once the count is down to 0, the callbacks of all servers have counted. */
  lemma LastMeansAll(s: State, r: nat)
    requires Inv(s) && r < |s.requests| && s.requests[r].unfinished == 0
    ensures forall server: nat :: server < |s.requests[r].slots| ==> server in CountedServers(s.frames, r)
    ensures forall t :: 0 <= t < |s.frames| && s.frames[t].callback.request == r ==> s.frames[t].Counted()
  {
    var q, counted := s.requests[r], CountedServers(s.frames, r);
    assert RequestOk(s, r);
    CountedInRange(s, r);
    Sets.BelowSize(counted, |q.slots|);
    forall t | 0 <= t < |s.frames| && s.frames[t].callback.request == r
      ensures s.frames[t].Counted()
    {
      assert FrameOk(s, t);
      var server := s.frames[t].callback.server;
      CountedWitness(s.frames, r, server);
      var u :| CountedAt(s.frames, r, u, server);
      SameFrame(s, t, u);
    }
  }

  lemma CountedInRange(s: State, r: nat)
    requires Inv(s) && r < |s.requests|
    ensures forall server :: server in CountedServers(s.frames, r) ==> server < |s.requests[r].slots|
  {
    forall server | server in CountedServers(s.frames, r)
      ensures server < |s.requests[r].slots|
    {
      CountedWitness(s.frames, r, server);
      var t :| CountedAt(s.frames, r, t, server);
      assert FrameOk(s, t);
    }
  }

  lemma SameFrame(s: State, t: nat, u: nat)
    requires Inv(s) && t < |s.frames| && u < |s.frames| && s.frames[t].callback == s.frames[u].callback
    ensures t == u
  {
    assert t < u ==> Distinct(s, t, u);
    assert u < t ==> Distinct(s, u, t);
  }

  lemma SameLast(s: State, t: nat, u: nat)
    requires Inv(s) && t < |s.frames| && u < |s.frames| && s.frames[t].Last() && s.frames[u].Last()
    requires s.frames[t].callback.request == s.frames[u].callback.request
    ensures t == u
  {
    assert t < u ==> Distinct(s, t, u);
    assert u < t ==> Distinct(s, u, t);
  }

  // ----- the three steps of a running callback -----

  lemma ResourcesKept(s: State, s': State)
    requires Inv(s) && s'.table.resources == s.table.resources
    requires |s'.frames| == |s.frames| && forall t :: 0 <= t < |s.frames| ==>
      s'.frames[t].callback == s.frames[t].callback
    requires |s'.requests| == |s.requests|
    requires forall r :: 0 <= r < |s.requests| ==>
      s'.requests[r].registered == s.requests[r].registered && |s'.requests[r].slots| == |s.requests[r].slots|
    ensures forall rid :: rid in s'.table.resources ==> ResourceOk(s', rid)
  {
    forall rid | rid in s'.table.resources
      ensures ResourceOk(s', rid)
    {
      assert ResourceOk(s, rid);
    }
  }

  /** A frame that has not counted shows that its request is not done. */
  lemma Unfinished(s: State, t: nat)
    requires Inv(s) && t < |s.frames| && !s.frames[t].Counted()
    ensures Registered(s, s.frames[t].callback) && s.requests[s.frames[t].callback.request].unfinished > 0
    ensures s.frames[t].callback.server !in CountedServers(s.frames, s.frames[t].callback.request)
  {
    var c := s.frames[t].callback;
    assert FrameOk(s, t);
    assert RequestOk(s, c.request);
    CountedWitness(s.frames, c.request, c.server);
    if c.server in CountedServers(s.frames, c.request) {
      var u :| CountedAt(s.frames, c.request, u, c.server);
      SameFrame(s, t, u);
    }
    if s.requests[c.request].unfinished == 0 {
      LastMeansAll(s, c.request);
    }
  }

  lemma NoLast(s: State, t: nat, u: nat)
    requires Inv(s) && t < |s.frames| && u < |s.frames| && !s.frames[t].Counted()
      && s.frames[u].callback.request == s.frames[t].callback.request
    ensures !s.frames[u].Last()
  {
    Unfinished(s, t);
    assert FrameOk(s, u);
  }

  lemma WriteFrames(s: State, t: nat)
    requires Inv(s) && Enabled(s, WriteSlot(t))
    ensures var s' := Next(s, WriteSlot(t)); forall u :: 0 <= u < |s'.frames| ==> FrameOk(s', u)
  {
    var s' := Next(s, WriteSlot(t));
    assert FrameOk(s, t);
    forall u | 0 <= u < |s'.frames|
      ensures FrameOk(s', u)
    {
      assert FrameOk(s, u);
      if u != t {
        assert t < u ==> Distinct(s, t, u);
        assert u < t ==> Distinct(s, u, t);
        if s.frames[u].callback.request == s.frames[t].callback.request {
          NoLast(s, t, u);
        }
      }
    }
  }

  lemma WriteRequests(s: State, t: nat)
    requires Inv(s) && Enabled(s, WriteSlot(t))
    ensures var s' := Next(s, WriteSlot(t)); forall r :: 0 <= r < |s'.requests| ==> RequestOk(s', r)
  {
    var s' := Next(s, WriteSlot(t));
    forall r | 0 <= r < |s'.requests|
      ensures RequestOk(s', r)
    {
      assert RequestOk(s, r);
      CountedKept(s.frames, s'.frames, r);
      Sets.SameSize(CountedServers(s.frames, r), CountedServers(s'.frames, r));
      LastKept(s, s', r);
    }
  }

  lemma LastKept(s: State, s': State, r: nat)
    requires |s'.frames| == |s.frames|
    requires forall u :: 0 <= u < |s.frames| ==> s'.frames[u].callback == s.frames[u].callback
    requires forall u :: 0 <= u < |s.frames| && s.frames[u].callback.request == r && s.frames[u].Last() ==>
      s'.frames[u].Last()
    requires forall u :: 0 <= u < |s.frames| && s.frames[u].callback.request == r && s.frames[u].phase == Replied ==>
      s'.frames[u].phase == Replied
    ensures HasLast(s, r) ==> HasLast(s', r)
    ensures HasReplied(s, r) ==> HasReplied(s', r)
  {
    if HasLast(s, r) {
      var u :| 0 <= u < |s.frames| && s.frames[u].callback.request == r && s.frames[u].Last();
      assert s'.frames[u].callback.request == r && s'.frames[u].Last();
    }
    if HasReplied(s, r) {
      var u :| 0 <= u < |s.frames| && s.frames[u].callback.request == r && s.frames[u].phase == Replied;
      assert s'.frames[u].callback.request == r && s'.frames[u].phase == Replied;
    }
  }

  lemma WriteInv(s: State, t: nat)
    requires Inv(s) && Enabled(s, WriteSlot(t))
    ensures Inv(Next(s, WriteSlot(t)))
  {
    var s' := Next(s, WriteSlot(t));
    ResourcesKept(s, s');
    WriteFrames(s, t);
    WriteRequests(s, t);
    forall u, v | 0 <= u < v < |s'.frames|
      ensures Distinct(s', u, v)
    {
      assert Distinct(s, u, v);
    }
  }

  lemma CountDownFrames(s: State, t: nat)
    requires Inv(s) && Enabled(s, CountDown(t))
    ensures var s' := Next(s, CountDown(t));
      && (forall u :: 0 <= u < |s'.frames| ==> FrameOk(s', u))
      && (forall u, v :: 0 <= u < v < |s'.frames| ==> Distinct(s', u, v))
  {
    var s' := Next(s, CountDown(t));
    Unfinished(s, t);
    forall u | 0 <= u < |s'.frames|
      ensures FrameOk(s', u)
        && (u != t && s'.frames[u].callback.request == s'.frames[t].callback.request ==> !s'.frames[u].Last())
    {
      assert FrameOk(s, u);
      if u != t && s.frames[u].callback.request == s.frames[t].callback.request {
        NoLast(s, t, u);
      }
    }
    forall u, v | 0 <= u < v < |s'.frames|
      ensures Distinct(s', u, v)
    {
      assert Distinct(s, u, v);
    }
  }

  lemma CountDownRequests(s: State, t: nat)
    requires Inv(s) && Enabled(s, CountDown(t))
    ensures var s' := Next(s, CountDown(t)); forall r :: 0 <= r < |s'.requests| ==> RequestOk(s', r)
  {
    var s', c := Next(s, CountDown(t)), s.frames[t].callback;
    Unfinished(s, t);
    forall r | 0 <= r < |s'.requests|
      ensures RequestOk(s', r)
    {
      assert RequestOk(s, r);
      if r == c.request {
        CountedMore(s.frames, s'.frames, t);
        Sets.AddedSize(CountedServers(s.frames, r), CountedServers(s'.frames, r), c.server);
        if s'.requests[r].unfinished == 0 {
          assert s'.frames[t].callback.request == r && s'.frames[t].Last();
        }
        LastKept(s, s', r);
      } else {
        CountedOthers(s.frames, s'.frames, t, r);
        Sets.SameSize(CountedServers(s.frames, r), CountedServers(s'.frames, r));
        LastKept(s, s', r);
      }
    }
  }

  /** Frame `t` counts down. */
  lemma CountedMore(frames: seq<Frame>, frames': seq<Frame>, t: nat)
    requires t < |frames| == |frames'| && frames'[t].callback == frames[t].callback && frames'[t].Counted()
    requires forall u :: 0 <= u < |frames| && u != t ==> frames'[u] == frames[u]
    ensures var c := frames[t].callback; forall y :: y in CountedServers(frames', c.request) <==>
      y in CountedServers(frames, c.request) || y == c.server
  {
    var r := frames[t].callback.request;
    forall y
      ensures y in CountedServers(frames', r) <==> y in CountedServers(frames, r) || y == frames[t].callback.server
    {
      CountedWitness(frames, r, y);
      CountedWitness(frames', r, y);
      if u: nat :| CountedAt(frames', r, u, y) {
        assert u != t ==> CountedAt(frames, r, u, y);
      }
      if u: nat :| CountedAt(frames, r, u, y) {
        assert CountedAt(frames', r, u, y);
      }
      if y == frames[t].callback.server {
        assert CountedAt(frames', r, t, y);
      }
    }
  }

  lemma CountedOthers(frames: seq<Frame>, frames': seq<Frame>, t: nat, r: nat)
    requires t < |frames| == |frames'| && frames'[t].callback == frames[t].callback && frames[t].callback.request != r
    requires forall u :: 0 <= u < |frames| && u != t ==> frames'[u] == frames[u]
    ensures forall y :: y in CountedServers(frames', r) <==> y in CountedServers(frames, r)
  {
    forall y
      ensures y in CountedServers(frames', r) <==> y in CountedServers(frames, r)
    {
      CountedWitness(frames, r, y);
      CountedWitness(frames', r, y);
      if u: nat :| CountedAt(frames', r, u, y) {
        assert CountedAt(frames, r, u, y);
      }
      if u: nat :| CountedAt(frames, r, u, y) {
        assert CountedAt(frames', r, u, y);
      }
    }
  }

  lemma CountDownInv(s: State, t: nat)
    requires Inv(s) && Enabled(s, CountDown(t))
    ensures Inv(Next(s, CountDown(t)))
  {
    ResourcesKept(s, Next(s, CountDown(t)));
    CountDownFrames(s, t);
    CountDownRequests(s, t);
  }

  lemma AggregateFrames(s: State, t: nat)
    requires Inv(s) && Enabled(s, Aggregate(t))
    ensures var s' := Next(s, Aggregate(t));
      && (forall u :: 0 <= u < |s'.frames| ==> FrameOk(s', u))
      && (forall u, v :: 0 <= u < v < |s'.frames| ==> Distinct(s', u, v))
  {
    var s', c := Next(s, Aggregate(t)), s.frames[t].callback;
    assert FrameOk(s, t);
    NoReplyYet(s, t);
    forall u | 0 <= u < |s'.frames|
      ensures FrameOk(s', u)
    {
      assert FrameOk(s, u);
      if u != t && s.frames[u].callback.request == c.request && s.frames[u].Last() {
        SameLast(s, t, u);
      }
    }
    forall u, v | 0 <= u < v < |s'.frames|
      ensures Distinct(s', u, v)
    {
      assert Distinct(s, u, v);
    }
  }

  lemma NoReplyYet(s: State, t: nat)
    requires Inv(s) && Enabled(s, Aggregate(t))
    ensures s.requests[s.frames[t].callback.request].replies == []
  {
    var r := s.frames[t].callback.request;
    assert RequestOk(s, r);
    if s.requests[r].replies != [] {
      var u :| 0 <= u < |s.frames| && s.frames[u].callback.request == r && s.frames[u].phase == Replied;
      SameLast(s, t, u);
    }
  }

  lemma AggregateInv(s: State, t: nat)
    requires Inv(s) && Enabled(s, Aggregate(t))
    ensures Inv(Next(s, Aggregate(t)))
  {
    var s', c := Next(s, Aggregate(t)), s.frames[t].callback;
    ResourcesKept(s, s');
    AggregateFrames(s, t);
    forall r | 0 <= r < |s'.requests|
      ensures RequestOk(s', r)
    {
      assert RequestOk(s, r);
      CountedKept(s.frames, s'.frames, r);
      Sets.SameSize(CountedServers(s.frames, r), CountedServers(s'.frames, r));
      LastKept(s, s', r);
      if r == c.request {
        assert s'.frames[t].callback.request == r && s'.frames[t].phase == Replied;
      }
    }
  }

  lemma TakeExpiredInv(s: State, now: nat)
    requires Inv(s)
    ensures Inv(Next(s, TakeExpired(now)))
  {
    FrameOnly(s, Next(s, TakeExpired(now)));
  }

  /** Requests, resources, frames and ids decide the invariant. */
  lemma FrameOnly(s: State, s': State)
    requires Inv(s) && s'.requests == s.requests && s'.frames == s.frames && s'.registrations == s.registrations
    requires s'.table.resources == s.table.resources && s'.table.next == s.table.next
    ensures Inv(s')
  {
    ResourcesKept(s, s');
    forall t | 0 <= t < |s'.frames|
      ensures FrameOk(s', t)
    {
      assert FrameOk(s, t);
    }
    forall t, u | 0 <= t < u < |s'.frames|
      ensures Distinct(s', t, u)
    {
      assert Distinct(s, t, u);
    }
    forall r | 0 <= r < |s'.requests|
      ensures RequestOk(s', r)
    {
      assert RequestOk(s, r);
      LastKept(s, s', r);
    }
  }

  /** One step that is no failed send keeps the invariant, while fewer than 2^32 registrations are made. */
  lemma StepInv(s: State, step: Step)
    requires Inv(s) && Enabled(s, step) && !step.FailSend? && Next(s, step).registrations < UINT32
    ensures Inv(Next(s, step))
  {
    match step
    case Receive(header, servers) => ReceiveInv(s, header, servers);
    case Register(r, timeout, now) => RegisterInv(s, r, timeout, now);
    case Respond(rid, answer) => HandOutInv(s, rid, answer);
    case TakeExpired(now) => TakeExpiredInv(s, now);
    case FireNext =>
      var popped := s.(expired := s.expired[1..]);
      FrameOnly(s, popped);
      HandOutInv(popped, s.expired[0].id, SearchResult(TIMEOUT, []));
    case WriteSlot(t) => WriteInv(s, t);
    case CountDown(t) => CountDownInv(s, t);
    case Aggregate(t) => AggregateInv(s, t);
  }

  ghost predicate NoFailedSend(steps: seq<Step>) {
    forall i :: 0 <= i < |steps| ==> !steps[i].FailSend?
  }

  /** A run without a failed send, up to a state with fewer than 2^32 registrations. */
  ghost predicate Proper(steps: seq<Step>, states: seq<State>, n: nat) {
    IsRun(steps, states) && NoFailedSend(steps) && n < |states| && states[n].registrations < UINT32
  }

  lemma {:induction false} RunInv(steps: seq<Step>, states: seq<State>, n: nat)
    requires Proper(steps, states, n)
    ensures Inv(states[n])
    decreases n
  {
    if n == 0 {
      InitialInv();
    } else {
      assert StepAt(steps, states, n - 1);
      RegistrationsGrow(states[n - 1], steps[n - 1]);
      RunInv(steps, states, n - 1);
      StepInv(states[n - 1], steps[n - 1]);
    }
  }

  lemma RegistrationsGrow(s: State, step: Step)
    requires Enabled(s, step)
    ensures s.registrations <= Next(s, step).registrations
  {
  }

  // ----- what a client may rely on -----

  /** Each registered callback is handed out at most once, whoever races for it. */
  lemma HandedOutAtMostOnce(steps: seq<Step>, states: seq<State>, n: nat, t: nat, u: nat)
    requires Proper(steps, states, n)
    requires t < u < |states[n].frames|
    ensures states[n].frames[t].callback != states[n].frames[u].callback
  {
    RunInv(steps, states, n);
    assert Distinct(states[n], t, u);
  }

  /** `answers[i]` is what the callback of server `i` was run with. */
  ghost predicate Answers(s: State, r: nat, answers: seq<SearchResult>)
    requires r < |s.requests|
  {
    && |answers| == |s.requests[r].slots|
    && forall i :: 0 <= i < |answers| ==> AnsweredBy(s, r, i, answers[i])
  }

  ghost predicate AnsweredBy(s: State, r: nat, i: nat, answer: SearchResult) {
    exists t :: 0 <= t < |s.frames| && s.frames[t].callback == Callback(r, i) && s.frames[t].answer == answer
      && s.frames[t].Counted()
  }

  /** All index results of the answers, in order. */
  function InOrder(answers: seq<SearchResult>, n: nat): seq<IndexResult>
    requires n <= |answers|
    decreases n
  {
    if n == 0 then [] else InOrder(answers, n - 1) + answers[n - 1].all
  }

  lemma {:induction false} JoinedInOrder(slots: Slots, answers: seq<SearchResult>, n: nat)
    requires n <= |slots| == |answers| && forall i :: 0 <= i < |slots| ==> slots[i] == Some(answers[i])
    ensures Joined(slots, n) == InOrder(answers, n)
    decreases n
  {
    if n > 0 {
      JoinedInOrder(slots, answers, n - 1);
    }
  }

  /** When the count is 0, every slot is filled with what its callback was run with. */
  lemma SlotsAnswered(s: State, r: nat) returns (answers: seq<SearchResult>)
    requires Inv(s) && r < |s.requests| && s.requests[r].unfinished == 0
    ensures Answers(s, r, answers)
    ensures forall i :: 0 <= i < |answers| ==> s.requests[r].slots[i] == Some(answers[i])
  {
    var slots := s.requests[r].slots;
    LastMeansAll(s, r);
    forall i: nat | i < |slots|
      ensures slots[i].Some? && AnsweredBy(s, r, i, slots[i].value)
    {
      CountedWitness(s.frames, r, i);
      var t :| CountedAt(s.frames, r, t, i);
      assert FrameOk(s, t);
    }
    answers := seq(|slots|, i requires 0 <= i < |slots| && slots[i].Some? => slots[i].value);
  }

  /**
   * A request is answered at most once, only after all of its servers' callbacks have run, and with
   * their index results in server order.
   */
  lemma AnsweredOnce(steps: seq<Step>, states: seq<State>, n: nat, r: nat) returns (answers: seq<SearchResult>)
    requires Proper(steps, states, n) && r < |states[n].requests| && states[n].requests[r].replies != []
    ensures var s := states[n]; var q := s.requests[r];
      Answers(s, r, answers) && q.replies == [Reply(q.header, SearchResult(SUCCESS, InOrder(answers, |answers|)))]
  {
    var s := states[n];
    RunInv(steps, states, n);
    assert RequestOk(s, r);
    var t :| 0 <= t < |s.frames| && s.frames[t].callback.request == r && s.frames[t].phase == Replied;
    assert FrameOk(s, t);
    answers := SlotsAnswered(s, r);
    JoinedInOrder(s.requests[r].slots, answers, |answers|);
  }

  /** The callback of every server has been run to its end. */
  ghost predicate AllRun(s: State, r: nat)
    requires r < |s.requests|
  {
    forall i: nat :: i < |s.requests[r].slots| ==> RunToEnd(s, r, i)
  }

  ghost predicate RunToEnd(s: State, r: nat, i: nat) {
    exists t :: 0 <= t < |s.frames| && s.frames[t].callback == Callback(r, i)
      && (s.frames[t].phase == Replied || s.frames[t].phase == Finished)
  }

  /** A request whose callbacks have all run has been answered exactly once, or never when it had no server to ask. */
  lemma AnsweredExactlyOnce(steps: seq<Step>, states: seq<State>, n: nat, r: nat)
    requires Proper(steps, states, n) && r < |states[n].requests| && AllRun(states[n], r)
    ensures |states[n].requests[r].replies| == if |states[n].requests[r].slots| > 0 then 1 else 0
  {
    var s := states[n];
    RunInv(steps, states, n);
    if s.requests[r].slots == [] {
      NoServerNoReply(s, r);
    } else {
      RepliedWhenAllRun(s, r);
    }
  }

  lemma NoServerNoReply(s: State, r: nat)
    requires Inv(s) && r < |s.requests| && s.requests[r].slots == []
    ensures s.requests[r].replies == []
  {
    assert RequestOk(s, r);
    forall t | 0 <= t < |s.frames|
      ensures s.frames[t].callback.request != r
    {
      assert FrameOk(s, t);
    }
  }

  lemma RepliedWhenAllRun(s: State, r: nat)
    requires Inv(s) && r < |s.requests| && s.requests[r].slots != [] && AllRun(s, r)
    ensures |s.requests[r].replies| == 1
  {
    var q := s.requests[r];
    assert RequestOk(s, r);
    forall i: nat | i < |q.slots|
      ensures i in CountedServers(s.frames, r)
    {
      assert RunToEnd(s, r, i);
      var t: nat :| t < |s.frames| && s.frames[t].callback == Callback(r, i)
        && (s.frames[t].phase == Replied || s.frames[t].phase == Finished);
      assert CountedAt(s.frames, r, t, i);
      CountedWitness(s.frames, r, i);
    }
    CountedInRange(s, r);
    Sets.BelowFull(CountedServers(s.frames, r), |q.slots|);
    var t: nat :| t < |s.frames| && s.frames[t].callback.request == r && s.frames[t].Last();
    assert FrameOk(s, t);
    assert RunToEnd(s, r, s.frames[t].callback.server);
    var u: nat :| u < |s.frames| && s.frames[u].callback == s.frames[t].callback
      && (s.frames[u].phase == Replied || s.frames[u].phase == Finished);
    SameFrame(s, t, u);
  }
}
