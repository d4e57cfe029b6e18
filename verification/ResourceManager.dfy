/**
  `ResourceManager`: callbacks kept under 32-bit ids until they are taken or time out, as a table and as a class.
 */
module Resources {
  import opened Bytes
  import opened Options

  const INVALID: int := 0

  // ----- ids -----

  /** The id of the `k`-th registration: 1, 2, and so on, skipping 0 at the wrap. */
  function Id(k: nat): (rid: nat)
    ensures 0 < rid < UINT32
  {
    k % (UINT32 - 1) + 1
  }

  /** `fetch_add` until the value is not 0: the id and the next counter value. */
  function Draw(next: nat): (nat, nat)
    requires next < UINT32
  {
    if next == INVALID then (1, 2) else (next, (next + 1) % UINT32)
  }

  /** The counter after `k` registrations: the next id, or 0 right at the wrap. */
  predicate Counts(next: nat, k: nat) {
    next < UINT32 && if next == INVALID then k > 0 && k % (UINT32 - 1) == 0 else next == Id(k)
  }

  /** Every drawn id is the next in the cycle. */
  lemma DrawIsId(next: nat, k: nat)
    requires Counts(next, k)
    ensures Draw(next).0 == Id(k) && Counts(Draw(next).1, k + 1)
  {
    var m := UINT32 - 1;
    assert (k + 1) % m == if k % m == m - 1 then 0 else k % m + 1;
  }

  /** Two registrations share an id exactly when they lie a multiple of 2^32 - 1 apart. */
  lemma SameIdIff(j: nat, k: nat)
    requires j <= k
    ensures Id(j) == Id(k) <==> (k - j) % (UINT32 - 1) == 0
  {
    var m := UINT32 - 1;
    var q, r := j / m, j % m;
    var p, t := (k - j) / m, (k - j) % m;
    assert k == m * (q + p) + (r + t);
    assert k % m == (r + t) % m;
  }

  // ----- the table -----

  /** A registered timeout. */
  datatype Item = Item(id: nat, expire: nat)

  datatype Table<T> = Table(next: nat, resources: map<nat, T>, timeouts: seq<Item>)
  {
    /** `emplace` keeps what is there already. */
    function Add(resource: T, timeout: nat, now: nat): Table<T>
      requires next < UINT32
    {
      var (rid, next') := Draw(next);
      Table(next',
            if rid in resources then resources else resources[rid := resource],
            if timeout > 0 then timeouts + [Item(rid, now + timeout)] else timeouts)
    }

    function Remove(rid: nat): Table<T> {
      this.(resources := resources - {rid})
    }

    function Find(rid: nat): Option<T> {
      if rid in resources then Some(resources[rid]) else None
    }
  }

  /** How many items at the front have expired. */
  function Expired(items: seq<Item>, now: nat): (n: nat)
    ensures n <= |items| && (forall i :: 0 <= i < n ==> items[i].expire <= now)
      && (n < |items| ==> items[n].expire > now)
  {
    if items == [] || items[0].expire > now then 0 else 1 + Expired(items[1..], now)
  }

  /** Looking the first `n` ids up one by one, each found resource leaving the table. */
  function Fired<T>(resources: map<nat, T>, items: seq<Item>, n: nat): (seq<T>, map<nat, T>)
    requires n <= |items|
    decreases n
  {
    if n == 0 then ([], resources)
    else
      var (found, left) := Fired(resources, items, n - 1);
      var rid := items[n - 1].id;
      if rid in left then (found + [left[rid]], left - {rid}) else (found, left)
  }

  ghost predicate Among(items: seq<Item>, n: nat, rid: nat)
    requires n <= |items|
  {
    exists i :: 0 <= i < n && items[i].id == rid
  }

  /** A round removes exactly the resources whose ids came up, and fires each of them once. */
  lemma {:induction false} FiredLeaves<T>(resources: map<nat, T>, items: seq<Item>, n: nat)
    requires n <= |items|
    ensures forall rid :: rid in Fired(resources, items, n).1 <==> rid in resources && !Among(items, n, rid)
    ensures forall rid :: rid in Fired(resources, items, n).1 ==> Fired(resources, items, n).1[rid] == resources[rid]
    ensures |Fired(resources, items, n).0| + |Fired(resources, items, n).1| == |resources|
    decreases n
  {
    if n > 0 {
      FiredLeaves(resources, items, n - 1);
      var left, left' := Fired(resources, items, n - 1).1, Fired(resources, items, n).1;
      var last := items[n - 1].id;
      forall rid
        ensures Among(items, n, rid) <==> Among(items, n - 1, rid) || rid == last
      {
      }
      if last in left {
        assert left.Keys == left'.Keys + {last};
      }
    }
  }

  class ResourceManager<T(0)> {
    var m_nextResourceID: nat
    var m_resources: map<nat, T>
    var m_timeoutList: seq<Item>
    var m_timeoutItemCount: nat
    ghost var registered: nat

    ghost function Model(): Table<T>
      reads this
    {
      Table(m_nextResourceID, m_resources, m_timeoutList)
    }

    /** Every live resource stands under the id of some registration so far. */
    ghost predicate Valid()
      reads this
    {
      && Counts(m_nextResourceID, registered)
      && m_timeoutItemCount == |m_timeoutList|
      && forall rid :: rid in m_resources ==> Taken(rid)
    }

    ghost predicate Taken(rid: nat)
      reads this
    {
      exists k: nat :: k < registered && rid == Id(k)
    }

    constructor ()
      ensures Valid() && registered == 0 && Model() == Table(1, map[], [])
    {
      m_nextResourceID, m_resources, m_timeoutList, m_timeoutItemCount, registered := 1, map[], [], 0, 0;
    }

    /** Registers under a fresh id, as long as fewer than 2^32 registrations were made. */
    method Add(resource: T, timeout: nat, now: nat) returns (rid: nat)
      requires Valid()
      modifies this
      ensures Valid() && registered == old(registered) + 1
      ensures rid == Id(old(registered)) && Model() == old(Model()).Add(resource, timeout, now)
      ensures old(registered) < UINT32 - 1 ==>
        rid !in old(m_resources) && m_resources == old(m_resources)[rid := resource]
    {
      DrawIsId(m_nextResourceID, registered);
      if registered < UINT32 - 1 {
        FreshId(Draw(m_nextResourceID).0);
      }
      rid := DrawNext();
      if rid !in m_resources {
        m_resources := m_resources[rid := resource];
      }
      if timeout > 0 {
        m_timeoutList := m_timeoutList + [Item(rid, now + timeout)];
        m_timeoutItemCount := m_timeoutItemCount + 1;
      }
      registered := registered + 1;
      assert rid == Id(registered - 1);
      assert forall r :: r in old(m_resources) ==> old(Taken(r));
      assert forall r :: old(Taken(r)) ==> Taken(r);
    }

    /** `fetch_add` until the value is not 0. */
    method DrawNext() returns (rid: nat)
      requires m_nextResourceID < UINT32
      modifies `m_nextResourceID
      ensures (rid, m_nextResourceID) == Draw(old(m_nextResourceID)) && rid != INVALID
    {
      rid := m_nextResourceID;
      m_nextResourceID := (m_nextResourceID + 1) % UINT32;
      while rid == INVALID
        invariant rid == INVALID ==> m_nextResourceID == 1 && old(m_nextResourceID) == INVALID
        invariant rid != INVALID ==> (rid, m_nextResourceID) == Draw(old(m_nextResourceID))
        decreases rid == INVALID
      {
        rid := m_nextResourceID;
        m_nextResourceID := (m_nextResourceID + 1) % UINT32;
      }
    }

    lemma FreshId(rid: nat)
      requires Valid() && rid == Id(registered) && registered < UINT32 - 1
      ensures rid !in m_resources
    {
      forall k: nat | k < registered
        ensures Id(k) != rid
      {
        SameIdIff(k, registered);
      }
    }

    method GetAndRemove(rid: nat) returns (r: Option<T>)
      requires Valid()
      modifies this
      ensures Valid() && registered == old(registered)
      ensures r == old(Model()).Find(rid) && Model() == old(Model()).Remove(rid)
    {
      r := None;
      if rid in m_resources {
        r := Some(m_resources[rid]);
        m_resources := m_resources - {rid};
      }
    }

    method Remove(rid: nat)
      requires Valid()
      modifies this
      ensures Valid() && registered == old(registered) && Model() == old(Model()).Remove(rid)
    {
      if rid in m_resources {
        m_resources := m_resources - {rid};
      }
    }

    /** The front of the list that has expired, in order. */
    method TakeExpired(now: nat) returns (timeouted: seq<Item>)
      requires Valid()
      modifies `m_timeoutList, `m_timeoutItemCount
      ensures Valid()
      ensures timeouted == old(m_timeoutList)[..Expired(old(m_timeoutList), now)]
      ensures m_timeoutList == old(m_timeoutList)[Expired(old(m_timeoutList), now)..]
    {
      timeouted := [];
      ghost var items, n := m_timeoutList, Expired(m_timeoutList, now);
      while m_timeoutList != [] && m_timeoutList[0].expire <= now
        invariant Valid() && |timeouted| <= n && timeouted == items[..|timeouted|]
          && m_timeoutList == items[|timeouted|..]
        decreases |m_timeoutList|
      {
        assert m_timeoutList[0] == items[|timeouted|];
        timeouted := timeouted + [m_timeoutList[0]];
        m_timeoutList := m_timeoutList[1..];
        m_timeoutItemCount := m_timeoutItemCount - 1;
      }
    }

    /** One round of the timeout checker: the resources whose callbacks it runs. */
    method CheckTimeout(now: nat) returns (fired: seq<T>)
      requires Valid()
      modifies this
      ensures Valid() && registered == old(registered)
      ensures (fired, m_resources) == Fired(old(m_resources), old(m_timeoutList), Expired(old(m_timeoutList), now))
      ensures m_timeoutList == old(m_timeoutList)[Expired(old(m_timeoutList), now)..]
    {
      var timeouted := TakeExpired(now);
      fired := [];
      for i := 0 to |timeouted|
        invariant Valid() && registered == old(registered)
          && m_timeoutList == old(m_timeoutList)[Expired(old(m_timeoutList), now)..]
        invariant (fired, m_resources) == Fired(old(m_resources), old(m_timeoutList), i)
      {
        ghost var left := m_resources;
        var resource := GetAndRemove(timeouted[i].id);
        if resource.Some? {
          fired := fired + [resource.value];
        } else {
          assert left - {timeouted[i].id} == left;
        }
      }
    }
  }
}
