/** `get_connection`, `close` and `reconnect` as one thread runs them while no other thread steps:
    each is an uninterrupted schedule of protocol steps, and its outcome is stated outright.
  */
module ConnectionPool {
  import opened Options
  import opened PoolProtocol

  /** Index of the last pooled connection that passes its test, -1 when none does. */
  function LastAlive(pool: seq<Connection>, alive: Connection -> bool): (i: int)
    ensures -1 <= i < |pool|
    ensures i >= 0 ==> alive(pool[i])
    ensures forall j | i < j < |pool| :: !alive(pool[j])
  {
    if pool == [] then -1
    else if alive(pool[|pool| - 1]) then |pool| - 1
    else LastAlive(pool[..|pool| - 1], alive)
  }

  lemma LastAliveStep(pool: seq<Connection>, n: nat, alive: Connection -> bool)
    requires 0 < n <= |pool| && LastAlive(pool, alive) == LastAlive(pool[..n], alive)
    ensures alive(pool[n - 1]) ==> LastAlive(pool, alive) == n - 1
    ensures !alive(pool[n - 1]) ==> LastAlive(pool, alive) == LastAlive(pool[..n - 1], alive)
    ensures pool[..n][|pool[..n]| - 1] == pool[n - 1] && pool[..n][..n - 1] == pool[..n - 1]
  {
    assert pool[..n][..n - 1] == pool[..n - 1];
  }

  /** The last pooled connection has moved into the slot, and nothing else has changed. */
  ghost predicate PoppedOne(before: State, now: State, t: Thread, a: Adapter)
    requires a.uri in before.pools && before.pools[a.uri] != []
  {
    var pool := before.pools[a.uri];
    && now.closed == before.closed && now.made == before.made
    && now.pools == before.pools[a.uri := pool[..|pool| - 1]]
    && now.slots == before.slots[Slot(t, a) := pool[|pool| - 1]]
  }

  /** The connections from number `n` on have been popped, the slot names the last of them. */
  ghost predicate Searched(start: State, now: State, t: Thread, a: Adapter, n: nat)
    requires a.uri in start.pools && n <= |start.pools[a.uri]|
  {
    var pool := start.pools[a.uri];
    && now.closed == start.closed && now.made == start.made
    && now.pools == start.pools[a.uri := pool[..n]]
    && now.slots == if n == |pool| then start.slots else start.slots[Slot(t, a) := pool[n]]
  }

  lemma SearchedOneMore(start: State, before: State, now: State, t: Thread, a: Adapter, n: nat)
    requires a.uri in start.pools && 0 < n <= |start.pools[a.uri]| && Searched(start, before, t, a, n)
    requires a.uri in before.pools && before.pools[a.uri] != [] && PoppedOne(before, now, t, a)
    ensures Searched(start, now, t, a, n - 1)
  {
    var pool := start.pools[a.uri];
    assert before.pools[a.uri] == pool[..n] && pool[..n][..n - 1] == pool[..n - 1];
    assert now.pools == start.pools[a.uri := pool[..n - 1]];
    assert now.slots == start.slots[Slot(t, a) := pool[n - 1]];
  }

  datatype Outcome = NothingOpen | PutBack | ReallyClosed | LeftOpen | KeyError

  class Pools {
    var memory: State
    ghost var history: seq<Step>

    ghost predicate Valid() reads this { Run(INITIAL, history) == Some(memory) }

    constructor ()
      ensures Valid() && memory == INITIAL
    {
      memory, history := INITIAL, [];
    }

    method Take(step: Step)
      requires Valid() && Enabled(memory, step)
      modifies this
      ensures Valid() && memory == Next(old(memory), step) && history == old(history) + [step]
    {
      RunOneMore(INITIAL, history, step);
      memory, history := Next(memory, step), history + [step];
    }

    /** Under the lock: pop until a connection passes its test. */
    method PopAlive(t: Thread, a: Adapter, alive: Connection -> bool) returns (r: Option<Connection>)
      requires Valid() && memory.Pc(t) == Searching(a) && memory.lock == Some(t) && a.uri in memory.pools
      modifies this
      ensures Valid() && memory.closed == old(memory).closed && memory.made == old(memory).made
      ensures var pool := PoolOf(old(memory), a.uri);
              var i := LastAlive(pool, alive);
              && r == (if i >= 0 then Some(pool[i]) else None)
              && memory.pools == old(memory).pools[a.uri := if i >= 0 then pool[..i] else []]
              && memory.slots == Tried(old(memory).slots, Slot(t, a), pool, i)
      ensures memory.lock.None? && memory.Pc(t) == if r.Some? then Idle else Opening(a)
    {
      ghost var start := memory;
      ghost var pool := memory.pools[a.uri];
      ghost var n := |pool|;
      assert pool[..n] == pool && start.pools == start.pools[a.uri := pool[..n]];
      while memory.pools[a.uri] != []
        invariant Valid() && 0 <= n <= |pool| && Searched(start, memory, t, a, n)
        invariant memory.Pc(t) == Searching(a) && memory.lock == Some(t)
        invariant LastAlive(pool, alive) == LastAlive(pool[..n], alive)
        decreases n
      {
        LastAliveStep(pool, n, alive);
        ghost var before := memory;
        r := TryOne(t, a, alive);
        SearchedOneMore(start, before, memory, t, a, n);
        n := n - 1;
        if r.Some? {
          return;
        }
      }
      assert pool[..0] == [] && LastAlive(pool, alive) == -1;
      GiveUp(t, a);
      r := None;
    }

    method GiveUp(t: Thread, a: Adapter)
      requires Valid() && memory.Pc(t) == Searching(a) && memory.lock == Some(t)
      requires a.uri in memory.pools && memory.pools[a.uri] == []
      modifies this
      ensures Valid() && memory.lock.None? && memory.Pc(t) == Opening(a)
      ensures memory.closed == old(memory).closed && memory.made == old(memory).made
      ensures memory.pools == old(memory).pools && memory.slots == old(memory).slots
    {
      Take(Exhausted(t));
    }

    /** Pop the last pooled connection into the slot and test it. */
    method TryOne(t: Thread, a: Adapter, alive: Connection -> bool) returns (r: Option<Connection>)
      requires Valid() && memory.Pc(t) == Searching(a) && memory.lock == Some(t)
      requires a.uri in memory.pools && memory.pools[a.uri] != []
      modifies this
      ensures Valid() && PoppedOne(old(memory), memory, t, a)
      ensures var pool := old(memory).pools[a.uri];
              r == if alive(pool[|pool| - 1]) then Some(pool[|pool| - 1]) else None
      ensures memory.lock == (if r.Some? then None else Some(t))
      ensures memory.Pc(t) == if r.Some? then Idle else Searching(a)
    {
      Take(SeePooled(t));
      Take(Pop(t));
      var c := memory.slots[Slot(t, a)];
      if alive(c) {
        Take(TestPasses(t));
        r := Some(c);
      } else {
        Take(TestRaises(t));
        r := None;
      }
    }

    method TryPool(t: Thread, a: Adapter, usePool: bool, alive: Connection -> bool) returns (r: Option<Connection>)
      requires Valid() && memory.Pc(t).Idle? && memory.lock.None? && Slot(t, a) !in memory.slots
      modifies this
      ensures Valid() && memory.closed == old(memory).closed && memory.made == old(memory).made
      ensures var pooling := usePool && a.poolSize > 0;
              var pool := PoolOf(old(memory), a.uri);
              var i := if pooling then LastAlive(pool, alive) else -1;
              && r == (if i >= 0 then Some(pool[i]) else None)
              && memory.pools == (if !pooling then old(memory).pools
                                  else old(memory).pools[a.uri := if i >= 0 then pool[..i] else []])
              && memory.slots == Tried(old(memory).slots, Slot(t, a), if pooling then pool else [], i)
      ensures memory.lock.None? && memory.Pc(t) == if r.Some? then Idle else Opening(a)
    {
      if usePool && a.poolSize > 0 {
        Take(LockForGet(t, a));
        r := PopAlive(t, a, alive);
      } else {
        Take(GetWithoutPool(t, a));
        r := None;
      }
    }

    /** `alive` is what `test_connection` says, `driver` what `connector()` does. */
    method GetConnection(t: Thread, a: Adapter, usePool: bool, alive: Connection -> bool, driver: Option<Connection>)
      returns (r: Option<Connection>)
      requires Valid() && memory.Pc(t).Idle? && memory.lock.None?
      requires driver.Some? ==> driver.value !in memory.made
      modifies this
      ensures Valid() && memory.Pc(t).Idle? && memory.lock.None? && memory.closed == old(memory).closed
      ensures Slot(t, a) in old(memory).slots ==> r == Some(old(memory).slots[Slot(t, a)]) && memory == old(memory)
      ensures Slot(t, a) !in old(memory).slots ==>
                var pooling := usePool && a.poolSize > 0;
                var pool := PoolOf(old(memory), a.uri);
                var i := if pooling then LastAlive(pool, alive) else -1;
                && r == (if i >= 0 then Some(pool[i]) else driver)
                && memory.pools == (if !pooling then old(memory).pools
                                    else old(memory).pools[a.uri := if i >= 0 then pool[..i] else []])
                && memory.slots == (if r.Some? then old(memory).slots[Slot(t, a) := r.value]
                                    else Tried(old(memory).slots, Slot(t, a), if pooling then pool else [], i))
    {
      var slot := Slot(t, a);
      if slot in memory.slots {
        return Some(memory.slots[slot]);
      }
      r := TryPool(t, a, usePool, alive);
      if r.Some? {
        return;
      }
      OpenFresh(t, a, driver);
      r := driver;
    }

    method OpenFresh(t: Thread, a: Adapter, driver: Option<Connection>)
      requires Valid() && memory.Pc(t) == Opening(a) && memory.lock.None?
      requires driver.Some? ==> driver.value !in memory.made
      modifies this
      ensures Valid() && memory.Pc(t).Idle? && memory.lock.None?
      ensures memory.closed == old(memory).closed && memory.pools == old(memory).pools
      ensures memory.slots == if driver.Some? then old(memory).slots[Slot(t, a) := driver.value] else old(memory).slots
    {
      match driver {
        case Some(c) => Take(Connect(t, c));
        case None => Take(ConnectRaises(t));
      }
    }

    /** Under the lock: put the connection of the slot back when there is room. */
    method Recycle(t: Thread, a: Adapter, really: bool) returns (outcome: Outcome)
      requires Valid() && memory.Pc(t) == Measuring(a, really) && memory.lock == Some(t) && Slot(t, a) in memory.slots
      modifies this
      ensures Valid() && memory.lock.None? && memory.made == old(memory).made
      ensures memory.slots == old(memory).slots && memory.closed == old(memory).closed
      ensures var pool := PoolOf(old(memory), a.uri);
              && outcome == (if a.uri !in old(memory).pools then KeyError
                             else if |pool| < a.poolSize then PutBack else LeftOpen)
              && memory.pools == (if outcome.PutBack?
                                  then old(memory).pools[a.uri := pool + [old(memory).slots[Slot(t, a)]]]
                                  else old(memory).pools)
              && memory.Pc(t) == (if outcome.KeyError? then Idle
                                  else if outcome.PutBack? then Unsetting(a) else Dropping(a, really))
    {
      if a.uri !in memory.pools {
        Take(PoolMissing(t));
        outcome := KeyError;
      } else if |PoolOf(memory, a.uri)| < a.poolSize {
        Take(SeeRoom(t));
        Take(Append(t));
        Take(UnlockRecycled(t));
        outcome := PutBack;
      } else {
        Take(SeeNoRoom(t));
        Take(UnlockFull(t));
        outcome := LeftOpen;
      }
    }

    /** Run the action and, when pooling and it came through, the locked section. */
    method ActAndRecycle(t: Thread, a: Adapter, really: bool, succeeded: bool) returns (outcome: Outcome)
      requires Valid() && memory.Pc(t) == Acting(a, really) && memory.lock.None? && Slot(t, a) in memory.slots
      modifies this
      ensures Valid() && memory.lock.None? && memory.made == old(memory).made
      ensures memory.slots == old(memory).slots && memory.closed == old(memory).closed
      ensures var pool := PoolOf(old(memory), a.uri);
              && outcome == (if a.poolSize == 0 || !succeeded then LeftOpen
                             else if a.uri !in old(memory).pools then KeyError
                             else if |pool| < a.poolSize then PutBack else LeftOpen)
              && memory.pools == (if outcome.PutBack?
                                  then old(memory).pools[a.uri := pool + [old(memory).slots[Slot(t, a)]]]
                                  else old(memory).pools)
              && memory.Pc(t) == (if outcome.KeyError? then Idle
                                  else if outcome.PutBack? then Unsetting(a) else Dropping(a, really))
    {
      if succeeded {
        Take(ActionDone(t));
        if a.poolSize > 0 {
          Take(LockForClose(t));
          outcome := Recycle(t, a, really);
        } else {
          outcome := LeftOpen;
        }
      } else {
        Take(ActionRaises(t));
        outcome := LeftOpen;
      }
    }

    /** `succeeded` is whether the commit or rollback action came through. */
    method Close(t: Thread, a: Adapter, really: bool, succeeded: bool) returns (outcome: Outcome)
      requires Valid() && memory.Pc(t).Idle? && memory.lock.None?
      modifies this
      ensures Valid() && memory.Pc(t).Idle? && memory.lock.None? && memory.made == old(memory).made
      ensures var slot := Slot(t, a);
              var pool := PoolOf(old(memory), a.uri);
              && outcome == (if slot !in old(memory).slots then NothingOpen
                             else if a.poolSize > 0 && succeeded && a.uri !in old(memory).pools then KeyError
                             else if succeeded && |pool| < a.poolSize then PutBack
                             else if really then ReallyClosed
                             else LeftOpen)
              && memory.slots == (if outcome.KeyError? then old(memory).slots else old(memory).slots - {slot})
              && memory.pools == (if outcome.PutBack? then old(memory).pools[a.uri := pool + [old(memory).slots[slot]]]
                                  else old(memory).pools)
              && memory.closed == (if outcome.ReallyClosed? then old(memory).closed + {old(memory).slots[slot]}
                                   else old(memory).closed)
    {
      if Slot(t, a) !in memory.slots {
        return NothingOpen;
      }
      Take(BeginClose(t, a, really));
      outcome := ActAndRecycle(t, a, really, succeeded);
      if outcome.KeyError? {
        return;
      }
      if outcome.LeftOpen? {
        if really {
          Take(CloseReally(t));
          outcome := ReallyClosed;
        } else {
          Take(LeaveOpen(t));
        }
      }
      Take(Unset(t));
    }

    /** Close with the default action, then get a connection. With room in the pool a live connection
        comes straight back and nothing changes. */
    method Reconnect(t: Thread, a: Adapter, succeeded: bool, alive: Connection -> bool, driver: Option<Connection>)
      returns (outcome: Outcome, r: Option<Connection>)
      requires Valid() && memory.Pc(t).Idle? && memory.lock.None?
      requires driver.Some? ==> driver.value !in memory.made
      modifies this
      ensures Valid() && memory.Pc(t).Idle? && memory.lock.None?
      ensures outcome.PutBack? || outcome.ReallyClosed? ==> Slot(t, a) in old(memory).slots
      ensures outcome.KeyError? ==> r == None && memory.slots == old(memory).slots && memory.pools == old(memory).pools
      ensures outcome.KeyError? <==>
              Slot(t, a) in old(memory).slots && a.poolSize > 0 && succeeded && a.uri !in old(memory).pools
      ensures !outcome.KeyError? ==>
                var slot := Slot(t, a);
                var before := PoolOf(old(memory), a.uri);
                var pool := if outcome.PutBack? then before + [old(memory).slots[slot]] else before;
                var i := if a.poolSize > 0 then LastAlive(pool, alive) else -1;
                && (outcome.PutBack? <==> slot in old(memory).slots && succeeded && |before| < a.poolSize)
                && r == (if i >= 0 then Some(pool[i]) else driver)
                && memory.pools == (if a.poolSize > 0 then old(memory).pools[a.uri := if i >= 0 then pool[..i] else []]
                                    else old(memory).pools)
                && memory.slots == (if r.Some? then old(memory).slots[slot := r.value]
                                    else Tried(old(memory).slots - {slot}, slot,
                                               if a.poolSize > 0 then pool else [], i))
      ensures memory.closed == if outcome.ReallyClosed? then old(memory).closed + {old(memory).slots[Slot(t, a)]}
                               else old(memory).closed
      ensures Slot(t, a) in old(memory).slots && succeeded && a.uri in old(memory).pools
              && |PoolOf(old(memory), a.uri)| < a.poolSize && alive(old(memory).slots[Slot(t, a)]) ==>
                r == Some(old(memory).slots[Slot(t, a)])
                && memory.slots == old(memory).slots && memory.pools == old(memory).pools
                && memory.closed == old(memory).closed
    {
      outcome := Close(t, a, true, succeeded);
      if outcome.KeyError? {
        return outcome, None;
      }
      r := GetConnection(t, a, true, alive, driver);
    }
  }

  /** A connection opened without the pool, on an adapter that pools, cannot be closed: the pool it should
      go back to was never made. */
  method CloseMissesPool(t: Thread, a: Adapter, really: bool, c: Connection, alive: Connection -> bool)
    returns (got: Option<Connection>, outcome: Outcome)
    requires a.poolSize > 0
    ensures got == Some(c) && outcome == KeyError
  {
    var pools := new Pools();
    got := pools.GetConnection(t, a, false, alive, Some(c));
    outcome := pools.Close(t, a, really, true);
  }

  /** A slot after its pool has been tried: it names the connection settled on or, when there is none,
      the last one rejected. */
  function Tried(slots: map<Slot, Connection>, slot: Slot, pool: seq<Connection>, i: int): map<Slot, Connection>
    requires i < |pool|
  {
    if pool == [] then slots else slots[slot := pool[if i >= 0 then i else 0]]
  }
}
