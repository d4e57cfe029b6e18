/**
  `ConnectionManager`: 256 slots, and 32-bit connection IDs that say which slot they live in; as a value, in runs of
  additions and removals, and as the class that holds it.
 */
module ConnectionPool {
  import opened Options

  const POOL_SIZE: nat := 256
  const ID_RANGE: nat := 0x1_0000_0000
  const INVALID_ID: nat := 0

  datatype Connection = Connection(id: nat, socket: int)

  type Slots = seq<Option<Connection>>

  /** The pool as a value. */
  datatype Pool = Pool(next: nat, slots: Slots, count: nat)

  function GetPosition(id: nat): (p: nat)
    ensures p < POOL_SIZE
  {
    id % POOL_SIZE
  }

  // ----- drawing an ID -----

  /** The ID drawn `d` draws from now: `fetch_add` on a 32-bit counter. */
  function Draw(next: nat, d: nat): (id: nat)
    ensures id < ID_RANGE
  {
    (next + d) % ID_RANGE
  }

  predicate Usable(slots: Slots, id: nat)
    requires |slots| == POOL_SIZE
  {
    id != INVALID_ID && slots[GetPosition(id)] == None
  }

  /** `d` is the first draw that may be used. */
  ghost predicate FirstUsable(slots: Slots, next: nat, d: nat)
    requires |slots| == POOL_SIZE
  {
    Usable(slots, Draw(next, d)) && forall e: nat :: e < d ==> !Usable(slots, Draw(next, e))
  }

  lemma WrapKeepsSlot(n: nat)
    ensures n % ID_RANGE % POOL_SIZE == n % POOL_SIZE
  {
    var q := n / ID_RANGE;
    assert n == ID_RANGE * q + n % ID_RANGE;
    assert n % POOL_SIZE == (n % ID_RANGE + POOL_SIZE * (0x100_0000 * q)) % POOL_SIZE;
  }

  /**
    From anywhere in the ID space, even across the wrap, some draw among the next 512 lands in a free slot and is not 0.
   */
  lemma SomeUsable(slots: Slots, next: nat, p: nat) returns (d: nat)
    requires |slots| == POOL_SIZE && p < POOL_SIZE && slots[p] == None
    ensures d < 512 && Usable(slots, Draw(next, d))
  {
    var at := next % POOL_SIZE;
    d := if at <= p then p - at else p + POOL_SIZE - at;
    assert (next + d) % POOL_SIZE == p;
    WrapKeepsSlot(next + d);
    if Draw(next, d) == INVALID_ID {
      WrapKeepsSlot(next + d + POOL_SIZE);
      d := d + POOL_SIZE;
    }
  }

  // ----- counting slots -----

  function Occupied(slots: Slots, n: nat): (c: nat)
    requires n <= |slots|
    ensures c <= n
  {
    if n == 0 then 0 else Occupied(slots, n - 1) + if slots[n - 1].Some? then 1 else 0
  }

  lemma {:induction false} FreeOne(slots: Slots, n: nat) returns (p: nat)
    requires n <= |slots| && Occupied(slots, n) < n
    ensures p < n && slots[p] == None
  {
    if slots[n - 1] == None {
      p := n - 1;
    } else {
      p := FreeOne(slots, n - 1);
    }
  }

  lemma {:induction false} OccupiedUpdate(slots: Slots, p: nat, x: Option<Connection>, n: nat)
    requires p < |slots| && n <= |slots|
    ensures Occupied(slots[p := x], n) ==
      Occupied(slots, n) + (if p < n && x.Some? then 1 else 0) - (if p < n && slots[p].Some? then 1 else 0)
  {
    if n > 0 {
      OccupiedUpdate(slots, p, x, n - 1);
    }
  }

  lemma {:induction false} FullSlots(slots: Slots, n: nat, p: nat)
    requires p < n <= |slots| && Occupied(slots, n) == n
    ensures slots[p].Some?
  {
    if p < n - 1 {
      FullSlots(slots, n - 1, p);
    }
  }

  // ----- what always holds -----

  /** A live connection sits in the slot its ID names. */
  ghost predicate InPlace(slots: Slots, p: nat)
    requires p < |slots|
  {
    slots[p].Some? ==> 0 < slots[p].value.id < ID_RANGE && GetPosition(slots[p].value.id) == p
  }

  ghost predicate WellFormed(pool: Pool) {
    && |pool.slots| == POOL_SIZE && pool.next < ID_RANGE && pool.count == Occupied(pool.slots, POOL_SIZE)
    && forall p :: 0 <= p < POOL_SIZE ==> InPlace(pool.slots, p)
  }

  /** Hence live IDs are pairwise distinct. */
  lemma DistinctIds(pool: Pool, p: nat, q: nat)
    requires WellFormed(pool) && p < q < POOL_SIZE && pool.slots[p].Some? && pool.slots[q].Some?
    ensures pool.slots[p].value.id != pool.slots[q].value.id
  {
    assert InPlace(pool.slots, p) && InPlace(pool.slots, q);
  }

  function Lookup(pool: Pool, id: nat): Option<Connection>
    requires |pool.slots| == POOL_SIZE
  {
    var c := pool.slots[GetPosition(id)];
    if c.Some? && c.value.id == id then c else None
  }

  /** Looking up an ID finds the live connection that has it, wherever in the pool that is, and nothing else. */
  lemma LookupIff(pool: Pool, id: nat, c: Connection)
    requires WellFormed(pool)
    ensures Lookup(pool, id) == Some(c) <==> c.id == id && Some(c) in pool.slots
  {
    if Some(c) in pool.slots && c.id == id {
      var p :| 0 <= p < POOL_SIZE && pool.slots[p] == Some(c);
      assert InPlace(pool.slots, p);
    }
  }

  // ----- steps and runs -----

  datatype Op = Add(socket: int) | Remove(id: nat)

  /** A removal empties the slot, whoever sits there. */
  function Removed(pool: Pool, id: nat): Pool
    requires |pool.slots| == POOL_SIZE
  {
    if pool.slots[GetPosition(id)] == None then pool
    else Pool(pool.next, pool.slots[GetPosition(id) := None], if pool.count > 0 then pool.count - 1 else 0)
  }

  /** The outcomes of adding: refused when full, otherwise the first usable ID drawn. */
  ghost predicate AddStep(before: Pool, socket: int, after: Pool, id: nat) {
    && |before.slots| == POOL_SIZE
    && if before.count == POOL_SIZE then
        after == before.(next := Draw(before.next, 1)) && id == INVALID_ID
      else
        exists d: nat :: d < 512 && FirstUsable(before.slots, before.next, d) && id == Draw(before.next, d)
          && after == Pool(Draw(before.next, d + 1), before.slots[GetPosition(id) := Some(Connection(id, socket))],
            before.count + 1)
  }

  ghost predicate Step(before: Pool, op: Op, after: Pool) {
    match op
    case Add(socket) => exists id :: AddStep(before, socket, after, id)
    case Remove(id) => |before.slots| == POOL_SIZE && after == Removed(before, id)
  }

  ghost predicate Run(states: seq<Pool>, ops: seq<Op>) {
    |states| == |ops| + 1 && forall n :: 0 <= n < |ops| ==> Step(states[n], ops[n], states[n + 1])
  }

  const EMPTY: Pool := Pool(1, seq(POOL_SIZE, _ => None), 0)

  lemma AddKeeps(before: Pool, socket: int, after: Pool, id: nat)
    requires WellFormed(before) && AddStep(before, socket, after, id)
    ensures WellFormed(after)
    ensures id == INVALID_ID <==> before.count == POOL_SIZE
    ensures after.count == before.count + if id == INVALID_ID then 0 else 1
    ensures id != INVALID_ID ==> Lookup(after, id) == Some(Connection(id, socket))
  {
    if id != INVALID_ID {
      OccupiedUpdate(before.slots, GetPosition(id), Some(Connection(id, socket)), POOL_SIZE);
    }
    forall p | 0 <= p < POOL_SIZE
      ensures InPlace(after.slots, p)
    {
      assert InPlace(before.slots, p);
    }
  }

  lemma RemoveKeeps(before: Pool, id: nat)
    requires WellFormed(before)
    ensures WellFormed(Removed(before, id))
  {
    OccupiedUpdate(before.slots, GetPosition(id), None, POOL_SIZE);
    forall p | 0 <= p < POOL_SIZE
      ensures InPlace(Removed(before, id).slots, p)
    {
      assert InPlace(before.slots, p);
    }
  }

  /**
    In every state of every run from the empty pool the count is that of the occupied slots, and every live ID is in its
    slot.
   */
  lemma {:induction false} RunKeeps(states: seq<Pool>, ops: seq<Op>, n: nat)
    requires Run(states, ops) && states[0] == EMPTY && n < |states|
    ensures WellFormed(states[n])
  {
    if n == 0 {
      NoneOccupied(EMPTY.slots, POOL_SIZE);
    } else {
      RunKeeps(states, ops, n - 1);
      assert Step(states[n - 1], ops[n - 1], states[n]);
      match ops[n - 1]
      case Add(socket) =>
        var id :| AddStep(states[n - 1], socket, states[n], id);
        AddKeeps(states[n - 1], socket, states[n], id);
      case Remove(id) =>
        RemoveKeeps(states[n - 1], id);
    }
  }

  /** A step other than a removal in its slot leaves a live connection where it is. */
  lemma StepSpares(before: Pool, op: Op, after: Pool, p: nat)
    requires WellFormed(before) && Step(before, op, after) && p < POOL_SIZE && before.slots[p].Some?
    requires op.Remove? ==> GetPosition(op.id) != p
    ensures |after.slots| == POOL_SIZE && after.slots[p] == before.slots[p]
  {
    if op.Add? {
      var id :| AddStep(before, op.socket, after, id);
    }
  }

  /** A connection is found under its ID for as long as no removal names its slot. */
  lemma {:induction false} StaysUntilRemoved(states: seq<Pool>, ops: seq<Op>, m: nat, n: nat, c: Connection)
    requires Run(states, ops) && states[0] == EMPTY && m <= n < |states|
    requires |states[m].slots| == POOL_SIZE && Lookup(states[m], c.id) == Some(c)
    requires forall j :: m <= j < n && ops[j].Remove? ==> GetPosition(ops[j].id) != GetPosition(c.id)
    ensures |states[n].slots| == POOL_SIZE && Lookup(states[n], c.id) == Some(c)
    decreases n
  {
    if m < n {
      StaysUntilRemoved(states, ops, m, n - 1, c);
      RunKeeps(states, ops, n - 1);
      assert Step(states[n - 1], ops[n - 1], states[n]);
      StepSpares(states[n - 1], ops[n - 1], states[n], GetPosition(c.id));
    }
  }

  /**
    Removal is by slot: it spares all connections with other IDs exactly when its slot is empty or holds the ID it
    names.
   */
  lemma RemoveSparesIff(pool: Pool, id: nat)
    requires WellFormed(pool)
    ensures (forall other :: other != id ==> Lookup(Removed(pool, id), other) == Lookup(pool, other)) <==>
      pool.slots[GetPosition(id)] == None || pool.slots[GetPosition(id)].value.id == id
  {
    var c := pool.slots[GetPosition(id)];
    assert InPlace(pool.slots, GetPosition(id));
    if c.Some? && c.value.id != id {
      assert Lookup(pool, c.value.id) == c && Lookup(Removed(pool, id), c.value.id) == None;
    }
  }

  // ----- a stale removal -----

  lemma AddToEmpty(n: nat, socket: int)
    requires n + 2 < ID_RANGE
    ensures AddStep(Pool(n + 1, EMPTY.slots, 0), socket,
      Pool(n + 2, EMPTY.slots[GetPosition(n + 1) := Some(Connection(n + 1, socket))], 1), n + 1)
  {
    assert FirstUsable(EMPTY.slots, n + 1, 0) && Draw(n + 1, 0) == n + 1;
    assert Draw(n + 1, 1) == n + 2;
  }

  lemma Longer(states: seq<Pool>, ops: seq<Op>, op: Op, to: Pool)
    requires Run(states, ops) && Step(states[|ops|], op, to)
    ensures Run(states + [to], ops + [op])
  {
    forall n | 0 <= n < |ops + [op]|
      ensures Step((states + [to])[n], (ops + [op])[n], (states + [to])[n + 1])
    {
      assert n < |ops| ==> Step(states[n], ops[n], states[n + 1]);
    }
  }

  /** `n` connections come and go, one after the other. */
  lemma {:induction false} ComeAndGo(n: nat) returns (states: seq<Pool>, ops: seq<Op>)
    requires n < ID_RANGE - 2
    ensures Run(states, ops) && states[0] == EMPTY && states[|ops|] == Pool(n + 1, EMPTY.slots, 0) && |ops| == 2 * n
    ensures n > 0 ==> ops[0] == Add(0) && ops[1] == Remove(1)
  {
    if n == 0 {
      states, ops := [EMPTY], [];
    } else {
      states, ops := ComeAndGo(n - 1);
      var p, c := GetPosition(n), Connection(n, 0);
      var added := Pool(n + 1, EMPTY.slots[p := Some(c)], 1);
      AddToEmpty(n - 1, 0);
      Longer(states, ops, Add(0), added);
      assert EMPTY.slots[p := Some(c)][p := None] == EMPTY.slots;
      assert Removed(added, n) == Pool(n + 1, EMPTY.slots, 0);
      Longer(states + [added], ops + [Add(0)], Remove(n), Pool(n + 1, EMPTY.slots, 0));
      states, ops := states + [added] + [Pool(n + 1, EMPTY.slots, 0)], ops + [Add(0)] + [Remove(n)];
    }
  }

  /**
    A connection may report its failure more than once. ID 1 comes and goes, 257 takes its slot, and the second removal
    of ID 1 closes it.
   */
  lemma StaleRemoval(socket: int) returns (states: seq<Pool>, ops: seq<Op>)
    ensures Run(states, ops) && states[0] == EMPTY
    ensures |ops| > 2 && ops[1] == Remove(1) && ops[|ops| - 1] == Remove(1)
    ensures |states[|ops| - 1].slots| == POOL_SIZE && Lookup(states[|ops| - 1], 257) == Some(Connection(257, socket))
    ensures |states[|ops|].slots| == POOL_SIZE && Lookup(states[|ops|], 257) == None
  {
    states, ops := ComeAndGo(256);
    var c := Connection(257, socket);
    var added := Pool(258, EMPTY.slots[1 := Some(c)], 1);
    AddToEmpty(256, socket);
    Longer(states, ops, Add(socket), added);
    Longer(states + [added], ops + [Add(socket)], Remove(1), Removed(added, 1));
    states, ops := states + [added] + [Removed(added, 1)], ops + [Add(socket)] + [Remove(1)];
  }

  // ----- the manager -----

  datatype ConnectionItem = ConnectionItem(isEmpty: bool, connection: Option<Connection>)

  class ConnectionManager {
    var m_nextConnectionID: nat
    var m_connectionCount: nat
    var m_connections: array<ConnectionItem>
    ghost var slots: Slots

    ghost function View(): Pool
      reads this
    {
      Pool(m_nextConnectionID, slots, m_connectionCount)
    }

    ghost predicate Holds(p: nat)
      requires p < m_connections.Length && p < |slots|
      reads this, m_connections
    {
      m_connections[p].connection == slots[p] && (m_connections[p].isEmpty <==> slots[p] == None)
    }

    ghost predicate Valid()
      reads this, m_connections
    {
      && m_connections.Length == POOL_SIZE && WellFormed(View())
      && forall p :: 0 <= p < POOL_SIZE ==> Holds(p)
    }

    constructor ()
      ensures Valid() && fresh(m_connections) && View() == EMPTY
    {
      m_nextConnectionID, m_connectionCount := 1, 0;
      m_connections := new ConnectionItem[POOL_SIZE](_ => ConnectionItem(true, None));
      slots := EMPTY.slots;
      new;
      NoneOccupied(slots, POOL_SIZE);
    }

    /** `m_nextConnectionID.fetch_add(1)`. */
    method FetchAdd() returns (id: nat)
      requires Valid()
      modifies this`m_nextConnectionID
      ensures Valid() && id == old(m_nextConnectionID) && m_nextConnectionID == Draw(id, 1)
    {
      id := m_nextConnectionID;
      m_nextConnectionID := (m_nextConnectionID + 1) % ID_RANGE;
      forall p | 0 <= p < POOL_SIZE
        ensures Holds(p)
      {
        assert old(Holds(p));
      }
    }

    /** `m_isEmpty.exchange(false)` succeeded: the connection takes the slot. */
    method Store(id: nat, socket: int)
      requires Valid() && 0 < id < ID_RANGE && slots[GetPosition(id)] == None
      modifies this`slots, this`m_connectionCount, m_connections
      ensures Valid() && slots == old(slots)[GetPosition(id) := Some(Connection(id, socket))]
        && m_connectionCount == old(m_connectionCount) + 1
    {
      var position := GetPosition(id);
      m_connections[position] := ConnectionItem(false, m_connections[position].connection);
      m_connectionCount := m_connectionCount + 1;
      m_connections[position] := ConnectionItem(false, Some(Connection(id, socket)));
      OccupiedUpdate(slots, position, Some(Connection(id, socket)), POOL_SIZE);
      slots := slots[position := Some(Connection(id, socket))];
      forall p | 0 <= p < POOL_SIZE
        ensures Holds(p) && InPlace(slots, p)
      {
        assert old(Holds(p)) && InPlace(old(slots), p);
      }
    }

    /** Succeeds exactly when the pool is not full, after at most 512 draws. */
    method AddConnection(socket: int) returns (id: nat)
      requires Valid()
      modifies this, m_connections
      ensures Valid() && m_connections == old(m_connections)
      ensures AddStep(old(View()), socket, View(), id)
      ensures id == INVALID_ID <==> old(m_connectionCount) == POOL_SIZE
    {
      ghost var before, d := View(), 0;
      var currID := FetchAdd();
      while currID == INVALID_ID || !m_connections[GetPosition(currID)].isEmpty
        invariant Valid() && m_connections == old(m_connections) && slots == before.slots
          && m_connectionCount == before.count
        invariant d < 512 && currID == Draw(before.next, d) && m_nextConnectionID == Draw(before.next, d + 1)
        invariant forall e: nat :: e < d ==> !Usable(before.slots, Draw(before.next, e))
        invariant d > 0 ==> Occupied(before.slots, POOL_SIZE) < POOL_SIZE
        decreases 512 - d
      {
        assert Holds(GetPosition(currID));
        if m_connectionCount >= POOL_SIZE {
          return INVALID_ID;
        }
        ghost var p := FreeOne(slots, POOL_SIZE);
        ghost var u := SomeUsable(slots, before.next, p);
        assert d < u;
        d := d + 1;
        currID := FetchAdd();
        DrawOn(before.next, d);
      }
      assert Holds(GetPosition(currID));
      if m_connectionCount == POOL_SIZE {
        FullSlots(slots, POOL_SIZE, GetPosition(currID));
      }
      Store(currID, socket);
      id := currID;
    }

    /** Closes whatever connection sits in the ID's slot; tells whether the removal event fires. */
    method RemoveConnection(id: nat) returns (removed: bool)
      requires Valid()
      modifies this`slots, this`m_connectionCount, m_connections
      ensures Valid() && View() == Removed(old(View()), id)
      ensures removed <==> old(slots)[GetPosition(id)].Some?
    {
      var position := GetPosition(id);
      assert Holds(position);
      if m_connections[position].isEmpty {
        assert slots == slots[position := None];
        return false;
      }
      OccupiedUpdate(slots, position, None, POOL_SIZE);
      RemoveKeeps(View(), id);
      m_connections[position] := ConnectionItem(true, None);
      m_connectionCount := m_connectionCount - 1;
      slots := slots[position := None];
      removed := true;
      forall p | 0 <= p < POOL_SIZE
        ensures Holds(p)
      {
        assert old(Holds(p));
      }
    }

    method GetConnection(id: nat) returns (c: Option<Connection>)
      requires Valid()
      ensures c == Lookup(View(), id)
    {
      assert Holds(GetPosition(id));
      c := m_connections[GetPosition(id)].connection;
      if c == None || c.value.id != id {
        return None;
      }
    }
  }

  lemma DrawOn(next: nat, d: nat)
    requires d > 0
    ensures Draw(Draw(next, d), 1) == Draw(next, d + 1)
  {
    var q := (next + d) / ID_RANGE;
    assert next + d == ID_RANGE * q + Draw(next, d);
  }

  lemma {:induction false} NoneOccupied(slots: Slots, n: nat)
    requires n <= |slots| && forall p :: 0 <= p < n ==> slots[p] == None
    ensures Occupied(slots, n) == 0
  {
    if n > 0 {
      NoneOccupied(slots, n - 1);
    }
  }
}
