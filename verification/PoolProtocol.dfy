/** The connection pool as a concurrent protocol: thread-local slots, one pool per URI, one global
    lock, and a program counter per thread.  Steps of different threads interleave freely; what one
    step does is no more than the code does between two points where another thread may run.
  */
module PoolProtocol {
  import opened Options

  type Thread = int
  type Connection = int

  datatype Adapter = Adapter(id: int, uri: string, poolSize: nat)

  /** A thread's slot for one adapter. */
  datatype Slot = Slot(thread: Thread, adapter: Adapter)

  datatype Pc =
    | Idle
    // get_connection
    | Searching(a: Adapter)                // holds the lock, connection is None
    | Popping(a: Adapter)                  // holds the lock, has seen a non-empty pool
    | Testing(a: Adapter)                  // holds the lock, the slot names the popped connection
    | Opening(a: Adapter)                  // about to call connector()
    // close
    | Acting(a: Adapter, really: bool)     // runs the commit/rollback action
    | Waiting(a: Adapter, really: bool)    // action succeeded, about to take the lock
    | Measuring(a: Adapter, really: bool)  // holds the lock, about to compare len(pool) with pool_size
    | Appending(a: Adapter)                // holds the lock, has seen room
    | Recycled(a: Adapter)                 // holds the lock, the connection is in the pool
    | Full(a: Adapter, really: bool)       // holds the lock, has seen no room
    | Dropping(a: Adapter, really: bool)   // not recycled
    | Unsetting(a: Adapter)                // about to empty the slot

  datatype State = State(
    slots: map<Slot, Connection>,
    pools: map<string, seq<Connection>>,
    lock: Option<Thread>,
    pcs: map<Thread, Pc>,
    made: set<Connection>,
    closed: set<Connection>)
  {
    function Pc(t: Thread): Pc { if t in pcs then pcs[t] else Idle }

    function Goto(t: Thread, pc: Pc): State { this.(pcs := pcs[t := pc]) }
  }

  datatype Step =
    | LockForGet(t: Thread, a: Adapter)
    | GetWithoutPool(t: Thread, a: Adapter)
    | SeePooled(t: Thread)
    | Pop(t: Thread)
    | TestPasses(t: Thread)
    | TestRaises(t: Thread)
    | Exhausted(t: Thread)
    | Connect(t: Thread, c: Connection)
    | ConnectRaises(t: Thread)
    | BeginClose(t: Thread, a: Adapter, really: bool)
    | ActionDone(t: Thread)
    | ActionRaises(t: Thread)
    | CursorRaises(t: Thread)
    | LockForClose(t: Thread)
    | PoolMissing(t: Thread)
    | SeeRoom(t: Thread)
    | SeeNoRoom(t: Thread)
    | Append(t: Thread)
    | UnlockRecycled(t: Thread)
    | UnlockFull(t: Thread)
    | CloseReally(t: Thread)
    | LeaveOpen(t: Thread)
    | Unset(t: Thread)

  function PoolOf(s: State, uri: string): seq<Connection> {
    if uri in s.pools then s.pools[uri] else []
  }

  predicate Enabled(s: State, step: Step) {
    var pc := s.Pc(step.t);
    match step
    case LockForGet(t, a) => pc.Idle? && Slot(t, a) !in s.slots && a.poolSize > 0 && s.lock.None?
    case GetWithoutPool(t, a) => pc.Idle? && Slot(t, a) !in s.slots
    case SeePooled(t) => pc.Searching? && PoolOf(s, pc.a.uri) != []
    case Pop(t) => pc.Popping? && PoolOf(s, pc.a.uri) != []
    case TestPasses(t) => pc.Testing?
    case TestRaises(t) => pc.Testing?
    case Exhausted(t) => pc.Searching? && PoolOf(s, pc.a.uri) == []
    case Connect(t, c) => pc.Opening? && c !in s.made
    case ConnectRaises(t) => pc.Opening?
    case BeginClose(t, a, _) => pc.Idle? && Slot(t, a) in s.slots
    case ActionDone(t) => pc.Acting?
    case ActionRaises(t) => pc.Acting?
    case CursorRaises(t) => pc.Acting?
    case LockForClose(t) => pc.Waiting? && s.lock.None?
    case PoolMissing(t) => pc.Measuring? && pc.a.uri !in s.pools
    case SeeRoom(t) => pc.Measuring? && pc.a.uri in s.pools && |PoolOf(s, pc.a.uri)| < pc.a.poolSize
    case SeeNoRoom(t) => pc.Measuring? && pc.a.uri in s.pools && |PoolOf(s, pc.a.uri)| >= pc.a.poolSize
    case Append(t) => pc.Appending? && Slot(t, pc.a) in s.slots
    case UnlockRecycled(t) => pc.Recycled?
    case UnlockFull(t) => pc.Full?
    case CloseReally(t) => pc.Dropping? && pc.really && Slot(t, pc.a) in s.slots
    case LeaveOpen(t) => pc.Dropping? && !pc.really
    case Unset(t) => pc.Unsetting?
  }

  function Next(s: State, step: Step): State
    requires Enabled(s, step)
  {
    var t := step.t;
    var pc := s.Pc(t);
    match step
    case LockForGet(_, a) =>
      s.(lock := Some(t), pools := s.pools[a.uri := PoolOf(s, a.uri)]).Goto(t, Searching(a))
    case GetWithoutPool(_, a) => s.Goto(t, Opening(a))
    case SeePooled(_) => s.Goto(t, Popping(pc.a))
    case Pop(_) =>
      var pool := PoolOf(s, pc.a.uri);
      s.(pools := s.pools[pc.a.uri := pool[..|pool| - 1]],
         slots := s.slots[Slot(t, pc.a) := pool[|pool| - 1]]).Goto(t, Testing(pc.a))
    case TestPasses(_) => s.(lock := None).Goto(t, Idle)
    case TestRaises(_) => s.Goto(t, Searching(pc.a))  // the slot still names the rejected connection
    case Exhausted(_) => s.(lock := None).Goto(t, Opening(pc.a))
    case Connect(_, c) => s.(slots := s.slots[Slot(t, pc.a) := c], made := s.made + {c}).Goto(t, Idle)
    case ConnectRaises(_) => s.Goto(t, Idle)
    case BeginClose(_, a, really) => s.Goto(t, Acting(a, really))
    case ActionDone(_) => s.Goto(t, if pc.a.poolSize > 0 then Waiting(pc.a, pc.really) else Dropping(pc.a, pc.really))
    case ActionRaises(_) => s.Goto(t, Dropping(pc.a, pc.really))
    case CursorRaises(_) => s.Goto(t, Idle)
    case LockForClose(_) => s.(lock := Some(t)).Goto(t, Measuring(pc.a, pc.really))
    case PoolMissing(_) => s.(lock := None).Goto(t, Idle)  // KeyError leaves through the finally
    case SeeRoom(_) => s.Goto(t, Appending(pc.a))
    case SeeNoRoom(_) => s.Goto(t, Full(pc.a, pc.really))
    case Append(_) =>
      s.(pools := s.pools[pc.a.uri := PoolOf(s, pc.a.uri) + [s.slots[Slot(t, pc.a)]]]).Goto(t, Recycled(pc.a))
    case UnlockRecycled(_) => s.(lock := None).Goto(t, Unsetting(pc.a))
    case UnlockFull(_) => s.(lock := None).Goto(t, Dropping(pc.a, pc.really))
    case CloseReally(_) => s.(closed := s.closed + {s.slots[Slot(t, pc.a)]}).Goto(t, Unsetting(pc.a))
    case LeaveOpen(_) => s.Goto(t, Unsetting(pc.a))
    case Unset(_) => s.(slots := s.slots - {Slot(t, pc.a)}).Goto(t, Idle)
  }

  const INITIAL: State := State(map[], map[], None, map[], {}, {})

  // ----- The invariant

  predicate HoldsLock(pc: Pc) {
    pc.Searching? || pc.Popping? || pc.Testing? || pc.Measuring? || pc.Appending? || pc.Recycled? || pc.Full?
  }

  /** The slot may still name its connection, but the thread is done with it. */
  predicate Past(s: State, slot: Slot) {
    var pc := s.Pc(slot.thread);
    (pc.Recycled? || pc.Unsetting?) && pc.a == slot.adapter
  }

  predicate Active(s: State, slot: Slot) {
    slot in s.slots && !Past(s, slot)
  }

  /** `close` works on a slot that holds a connection. */
  predicate NeedsSlot(pc: Pc) {
    !(pc.Idle? || pc.Searching? || pc.Popping? || pc.Opening?)
  }

  ghost predicate Pooled(s: State, uri: string, i: int, c: Connection) {
    uri in s.pools && 0 <= i < |s.pools[uri]| && s.pools[uri][i] == c
  }

  ghost predicate LockInv(s: State) {
    forall t :: HoldsLock(s.Pc(t)) <==> s.lock == Some(t)
  }

  ghost predicate SlotInv(s: State) {
    forall t :: NeedsSlot(s.Pc(t)) ==> Slot(t, s.Pc(t).a) in s.slots
  }

  /** What a thread has seen under the lock is still so. */
  ghost predicate SeenInv(s: State) {
    && (forall t :: s.Pc(t).Popping? ==> PoolOf(s, s.Pc(t).a.uri) != [])
    && (forall t :: s.Pc(t).Appending? ==> |PoolOf(s, s.Pc(t).a.uri)| < s.Pc(t).a.poolSize)
  }

  ghost predicate KnownInv(s: State) {
    && (forall k | k in s.slots :: s.slots[k] in s.made)
    && (forall u, i, c :: Pooled(s, u, i, c) ==> c in s.made)
    && s.closed <= s.made
  }

  /** No connection is in active use by two slots. */
  ghost predicate Exclusive(s: State) {
    forall k, l :: Active(s, k) && Active(s, l) && k != l ==> s.slots[k] != s.slots[l]
  }

  /** A connection is in one place of one pool at most, and a pooled one is named only by slots past
      their recycle step. */
  ghost predicate PoolInv(s: State) {
    && (forall u, i, c, v, j :: Pooled(s, u, i, c) && Pooled(s, v, j, c) ==> u == v && i == j)
    && (forall u, i, c, k :: Pooled(s, u, i, c) && k in s.slots && s.slots[k] == c ==> Past(s, k))
  }

  /** A really closed connection is in no pool and in no active use. */
  ghost predicate ClosedInv(s: State) {
    && (forall u, i, c :: Pooled(s, u, i, c) ==> c !in s.closed)
    && (forall k :: Active(s, k) ==> s.slots[k] !in s.closed)
  }

  /** Each pool stays within the size its adapters share. */
  ghost predicate SizeInv(s: State, cap: string -> nat) {
    forall u | u in s.pools :: |s.pools[u]| <= cap(u)
  }

  /** Every adapter at work is configured within `cap`. */
  ghost predicate CapInv(s: State, cap: string -> nat) {
    forall t :: !s.Pc(t).Idle? ==> s.Pc(t).a.poolSize <= cap(s.Pc(t).a.uri)
  }

  ghost predicate Inv(s: State, cap: string -> nat) {
    LockInv(s) && SlotInv(s) && SeenInv(s) && KnownInv(s) && Exclusive(s) && PoolInv(s) && ClosedInv(s)
    && SizeInv(s, cap) && CapInv(s, cap)
  }

  /** The adapters a step brings in are configured within `cap`. */
  ghost predicate Configured(step: Step, cap: string -> nat) {
    match step
    case LockForGet(_, a) => a.poolSize <= cap(a.uri)
    case GetWithoutPool(_, a) => a.poolSize <= cap(a.uri)
    case BeginClose(_, a, _) => a.poolSize <= cap(a.uri)
    case _ => true
  }

  lemma LockKept(s: State, step: Step)
    requires Enabled(s, step) && LockInv(s)
    ensures LockInv(Next(s, step))
  {
    var r := Next(s, step);
    forall u ensures HoldsLock(r.Pc(u)) <==> r.lock == Some(u) {
      assert HoldsLock(s.Pc(u)) <==> s.lock == Some(u);
      assert HoldsLock(s.Pc(step.t)) <==> s.lock == Some(step.t);
      LockKeptFor(s, step, u);
    }
  }

  lemma LockKeptFor(s: State, step: Step, u: Thread)
    requires Enabled(s, step)
    requires (HoldsLock(s.Pc(u)) <==> s.lock == Some(u)) && (HoldsLock(s.Pc(step.t)) <==> s.lock == Some(step.t))
    ensures HoldsLock(Next(s, step).Pc(u)) <==> Next(s, step).lock == Some(u)
  {
  }

  lemma SlotKept(s: State, step: Step)
    requires Enabled(s, step) && SlotInv(s)
    ensures SlotInv(Next(s, step))
  {
    var r := Next(s, step);
    forall u ensures NeedsSlot(r.Pc(u)) ==> Slot(u, r.Pc(u).a) in r.slots {
      assert NeedsSlot(s.Pc(u)) ==> Slot(u, s.Pc(u).a) in s.slots;
      SlotKeptFor(s, step, u);
    }
  }

  lemma SlotKeptFor(s: State, step: Step, u: Thread)
    requires Enabled(s, step) && (NeedsSlot(s.Pc(u)) ==> Slot(u, s.Pc(u).a) in s.slots)
    ensures NeedsSlot(Next(s, step).Pc(u)) ==> Slot(u, Next(s, step).Pc(u).a) in Next(s, step).slots
  {
  }

  lemma SeenKept(s: State, step: Step)
    requires Enabled(s, step) && LockInv(s) && SeenInv(s)
    ensures SeenInv(Next(s, step))
  {
    var r := Next(s, step);
    forall u ensures r.Pc(u).Popping? ==> PoolOf(r, r.Pc(u).a.uri) != []
             ensures r.Pc(u).Appending? ==> |PoolOf(r, r.Pc(u).a.uri)| < r.Pc(u).a.poolSize
    {
      if u != step.t && HoldsLock(s.Pc(u)) {
        PoolsStill(s, step, u);
      }
    }
  }

  /** While one thread holds the lock no other changes a pool. */
  lemma PoolsStill(s: State, step: Step, u: Thread)
    requires Enabled(s, step) && LockInv(s) && u != step.t && HoldsLock(s.Pc(u))
    ensures Next(s, step).Pc(u) == s.Pc(u) && forall uri :: PoolOf(Next(s, step), uri) == PoolOf(s, uri)
  {
    assert HoldsLock(s.Pc(step.t)) <==> s.lock == Some(step.t);
  }

  /** What a step can do to pools: nothing, shorten one, or append the stepping slot's connection. */
  lemma PooledBefore(s: State, step: Step, u: string, i: int, c: Connection)
    requires Enabled(s, step) && Pooled(Next(s, step), u, i, c)
    ensures Pooled(s, u, i, c)
            || (step.Append? && u == s.Pc(step.t).a.uri && i == |PoolOf(s, u)|
               && c == s.slots[Slot(step.t, s.Pc(step.t).a)])
    ensures step.Pop? && u == s.Pc(step.t).a.uri ==> i < |PoolOf(s, u)| - 1
  {
  }

  lemma KnownKept(s: State, step: Step)
    requires Enabled(s, step) && KnownInv(s)
    ensures KnownInv(Next(s, step))
  {
    var r := Next(s, step);
    forall u, i, c | Pooled(r, u, i, c) ensures c in r.made {
      PooledBefore(s, step, u, i, c);
    }
    if step.Pop? {
      var pool := PoolOf(s, s.Pc(step.t).a.uri);
      assert Pooled(s, s.Pc(step.t).a.uri, |pool| - 1, pool[|pool| - 1]);
    }
  }

  /** A slot in active use after a step was so before with the same connection, or has just been
      given a connection from a pool or from the driver. */
  lemma ActiveBefore(s: State, step: Step, k: Slot)
    requires Enabled(s, step) && SlotInv(s) && Active(Next(s, step), k)
    ensures (Active(s, k) && s.slots[k] == Next(s, step).slots[k])
            || (step.Pop? && k == Slot(step.t, s.Pc(step.t).a)
                && Next(s, step).slots[k] == PoolOf(s, k.adapter.uri)[|PoolOf(s, k.adapter.uri)| - 1])
            || (step.Connect? && k == Slot(step.t, s.Pc(step.t).a) && Next(s, step).slots[k] == step.c)
  {
  }

  lemma PoppedIsPooled(s: State, t: Thread)
    requires Enabled(s, Pop(t))
    ensures var uri := s.Pc(t).a.uri;
            Pooled(s, uri, |PoolOf(s, uri)| - 1, PoolOf(s, uri)[|PoolOf(s, uri)| - 1])
  {
  }

  lemma ExclusiveKept(s: State, step: Step)
    requires Enabled(s, step) && SlotInv(s) && KnownInv(s) && PoolInv(s) && Exclusive(s)
    ensures Exclusive(Next(s, step))
  {
    var r := Next(s, step);
    if step.Pop? {
      PoppedIsPooled(s, step.t);
    }
    forall k, l | Active(r, k) && Active(r, l) && k != l ensures r.slots[k] != r.slots[l] {
      ActiveBefore(s, step, k);
      ActiveBefore(s, step, l);
    }
  }

  /** The stepping slot is in active use when its connection goes into the pool or is closed. */
  lemma WorkingSlotActive(s: State, step: Step)
    requires Enabled(s, step) && (step.Append? || step.CloseReally?)
    ensures Active(s, Slot(step.t, s.Pc(step.t).a))
  {
  }

  lemma PoolKept(s: State, step: Step)
    requires Enabled(s, step) && SlotInv(s) && KnownInv(s) && Exclusive(s) && PoolInv(s)
    ensures PoolInv(Next(s, step))
  {
    var r := Next(s, step);
    if step.Append? {
      WorkingSlotActive(s, step);
    }
    forall u, i, c, v, j | Pooled(r, u, i, c) && Pooled(r, v, j, c) ensures u == v && i == j {
      PooledBefore(s, step, u, i, c);
      PooledBefore(s, step, v, j, c);
    }
    forall u, i, c, k | Pooled(r, u, i, c) && k in r.slots && r.slots[k] == c ensures Past(r, k) {
      PooledPast(s, step, u, i, c, k);
    }
  }

  lemma PooledPast(s: State, step: Step, u: string, i: int, c: Connection, k: Slot)
    requires Enabled(s, step) && SlotInv(s) && KnownInv(s) && Exclusive(s) && PoolInv(s)
    requires Pooled(Next(s, step), u, i, c) && k in Next(s, step).slots && Next(s, step).slots[k] == c
    ensures Past(Next(s, step), k)
  {
    var r := Next(s, step);
    PooledBefore(s, step, u, i, c);
    if Active(r, k) {
      ActiveBefore(s, step, k);
      if step.Pop? {
        PoppedIsPooled(s, step.t);
      }
      if step.Append? {
        WorkingSlotActive(s, step);
      }
    }
  }

  lemma ClosedKept(s: State, step: Step)
    requires Enabled(s, step) && SlotInv(s) && KnownInv(s) && Exclusive(s) && PoolInv(s) && ClosedInv(s)
    ensures ClosedInv(Next(s, step))
  {
    var r := Next(s, step);
    if step.Append? || step.CloseReally? {
      WorkingSlotActive(s, step);
    }
    if step.Pop? {
      PoppedIsPooled(s, step.t);
    }
    forall u, i, c | Pooled(r, u, i, c) ensures c !in r.closed {
      PooledBefore(s, step, u, i, c);
    }
    forall k | Active(r, k) ensures r.slots[k] !in r.closed {
      ActiveBefore(s, step, k);
    }
  }

  lemma SizeKept(s: State, step: Step, cap: string -> nat)
    requires Enabled(s, step) && SeenInv(s) && CapInv(s, cap) && SizeInv(s, cap)
    ensures SizeInv(Next(s, step), cap)
  {
    var r := Next(s, step);
    if step.Append? {
      var a := s.Pc(step.t).a;
      assert |PoolOf(s, a.uri)| < a.poolSize <= cap(a.uri);
    }
    forall u | u in r.pools ensures |r.pools[u]| <= cap(u) {
      assert u in s.pools ==> |s.pools[u]| <= cap(u);
    }
  }

  lemma CapKept(s: State, step: Step, cap: string -> nat)
    requires Enabled(s, step) && CapInv(s, cap) && Configured(step, cap)
    ensures CapInv(Next(s, step), cap)
  {
    var r := Next(s, step);
    forall u | !r.Pc(u).Idle? ensures r.Pc(u).a.poolSize <= cap(r.Pc(u).a.uri) {
      assert !s.Pc(u).Idle? ==> s.Pc(u).a.poolSize <= cap(s.Pc(u).a.uri);
    }
  }

  lemma InvKept(s: State, step: Step, cap: string -> nat)
    requires Enabled(s, step) && Inv(s, cap) && Configured(step, cap)
    ensures Inv(Next(s, step), cap)
  {
    LockKept(s, step);
    SlotKept(s, step);
    SeenKept(s, step);
    KnownKept(s, step);
    ExclusiveKept(s, step);
    PoolKept(s, step);
    ClosedKept(s, step);
    SizeKept(s, step, cap);
    CapKept(s, step, cap);
  }

  // ----- Runs

  /** The state after an interleaving of steps, None when one was not enabled. */
  function Run(s: State, steps: seq<Step>): Option<State>
    decreases |steps|
  {
    if steps == [] then Some(s)
    else
      match Run(s, steps[..|steps| - 1])
      case None => None
      case Some(r) => if Enabled(r, steps[|steps| - 1]) then Some(Next(r, steps[|steps| - 1])) else None
  }

  lemma {:induction false} RunKeepsInv(s: State, steps: seq<Step>, cap: string -> nat)
    requires Inv(s, cap) && Run(s, steps).Some? && forall i | 0 <= i < |steps| :: Configured(steps[i], cap)
    ensures Inv(Run(s, steps).value, cap)
    decreases |steps|
  {
    if steps != [] {
      var most := steps[..|steps| - 1];
      RunKeepsInv(s, most, cap);
      InvKept(Run(s, most).value, steps[|steps| - 1], cap);
    }
  }

  /** Over every interleaving: no connection is in active use by two slots or in active use once
      closed; no pool holds a connection twice, shares one with another pool, or holds a closed one;
      a pooled connection is named only by slots past their recycle step; pools keep their size. */
  lemma EveryInterleavingIsSafe(steps: seq<Step>, cap: string -> nat)
    requires Run(INITIAL, steps).Some? && forall i | 0 <= i < |steps| :: Configured(steps[i], cap)
    ensures var s := Run(INITIAL, steps).value;
            && (forall k, l | Active(s, k) && Active(s, l) && k != l :: s.slots[k] != s.slots[l])
            && (forall k | Active(s, k) :: s.slots[k] !in s.closed)
            && (forall u, i, j | u in s.pools && 0 <= i < j < |s.pools[u]| :: s.pools[u][i] != s.pools[u][j])
            && (forall u, v, i, j | u in s.pools && v in s.pools && u != v && 0 <= i < |s.pools[u]|
                                   && 0 <= j < |s.pools[v]| ::
                  s.pools[u][i] != s.pools[v][j])
            && (forall u, i | u in s.pools && 0 <= i < |s.pools[u]| :: s.pools[u][i] !in s.closed)
            && (forall u, i, k | u in s.pools && 0 <= i < |s.pools[u]| && k in s.slots
                                && s.slots[k] == s.pools[u][i] :: Past(s, k))
            && (forall u | u in s.pools :: |s.pools[u]| <= cap(u))
  {
    InitialInv(cap);
    RunKeepsInv(INITIAL, steps, cap);
    var s := Run(INITIAL, steps).value;
    assert forall u, i | u in s.pools && 0 <= i < |s.pools[u]| :: Pooled(s, u, i, s.pools[u][i]);
  }

  lemma InitialInv(cap: string -> nat)
    ensures Inv(INITIAL, cap)
  {
  }

  lemma RunOneMore(s: State, steps: seq<Step>, step: Step)
    requires Run(s, steps).Some? && Enabled(Run(s, steps).value, step)
    ensures Run(s, steps + [step]) == Some(Next(Run(s, steps).value, step))
  {
    assert (steps + [step])[..|steps + [step]| - 1] == steps;
  }

  ghost predicate Reachable(s: State) {
    exists steps :: Run(INITIAL, steps) == Some(s)
  }

  lemma ReachNext(s: State, step: Step)
    requires Reachable(s) && Enabled(s, step)
    ensures Reachable(Next(s, step))
  {
    var steps :| Run(INITIAL, steps) == Some(s);
    RunOneMore(INITIAL, steps, step);
  }

  function Holding(a: Adapter, c: Connection, pool: seq<Connection>, lock: Option<Thread>, pc: Pc): State {
    State(map[Slot(1, a) := c], map[a.uri := pool], lock, map[1 := pc], {c}, {})
  }

  lemma ReachOpen(a: Adapter, c: Connection)
    requires a.poolSize > 0
    ensures Reachable(Holding(a, c, [], None, Idle))
  {
    assert Run(INITIAL, []) == Some(INITIAL);
    var searching := State(map[], map[a.uri := []], Some(1), map[1 := Searching(a)], {}, {});
    ReachNext(INITIAL, LockForGet(1, a));
    assert Next(INITIAL, LockForGet(1, a)) == searching;
    var opening := State(map[], map[a.uri := []], None, map[1 := Opening(a)], {}, {});
    ReachNext(searching, Exhausted(1));
    assert Next(searching, Exhausted(1)) == opening;
    ReachNext(opening, Connect(1, c));
    assert Next(opening, Connect(1, c)) == Holding(a, c, [], None, Idle);
  }

  lemma ReachMeasuring(a: Adapter, c: Connection)
    requires a.poolSize > 0
    ensures Reachable(Holding(a, c, [], Some(1), Measuring(a, true)))
  {
    ReachOpen(a, c);
    var open := Holding(a, c, [], None, Idle);
    ReachNext(open, BeginClose(1, a, true));
    assert Next(open, BeginClose(1, a, true)) == Holding(a, c, [], None, Acting(a, true));
    ReachNext(Holding(a, c, [], None, Acting(a, true)), ActionDone(1));
    assert Next(Holding(a, c, [], None, Acting(a, true)), ActionDone(1)) == Holding(a, c, [], None, Waiting(a, true));
    ReachNext(Holding(a, c, [], None, Waiting(a, true)), LockForClose(1));
    assert Next(Holding(a, c, [], None, Waiting(a, true)), LockForClose(1))
           == Holding(a, c, [], Some(1), Measuring(a, true));
  }

  lemma ReachAppending(a: Adapter, c: Connection)
    requires a.poolSize > 0
    ensures Reachable(Holding(a, c, [], Some(1), Appending(a)))
  {
    ReachMeasuring(a, c);
    var measuring := Holding(a, c, [], Some(1), Measuring(a, true));
    ReachNext(measuring, SeeRoom(1));
    assert Next(measuring, SeeRoom(1)) == Holding(a, c, [], Some(1), Appending(a));
  }

  lemma ReachAppended(a: Adapter, c: Connection)
    requires a.poolSize > 0
    ensures Reachable(Holding(a, c, [c], Some(1), Recycled(a)))
  {
    ReachAppending(a, c);
    var appending := Holding(a, c, [], Some(1), Appending(a));
    ReachNext(appending, Append(1));
    assert [] + [c] == [c];
    assert Next(appending, Append(1)) == Holding(a, c, [c], Some(1), Recycled(a));
  }

  lemma ReachRecycled(a: Adapter, c: Connection)
    requires a.poolSize > 0
    ensures Reachable(Holding(a, c, [c], None, Unsetting(a)))
  {
    ReachAppended(a, c);
    var appended := Holding(a, c, [c], Some(1), Recycled(a));
    ReachNext(appended, UnlockRecycled(1));
    assert Next(appended, UnlockRecycled(1)) == Holding(a, c, [c], None, Unsetting(a));
  }

  /** The window is real: a connection can be handed to a second thread while the slot of the first
      still names it, so naming alone is not exclusive. */
  lemma RecycledConnectionNamedTwice(a: Adapter, c: Connection)
    requires a.poolSize > 0
    ensures exists s :: Reachable(s) && Slot(1, a) in s.slots && Slot(2, a) in s.slots
                        && s.slots[Slot(1, a)] == s.slots[Slot(2, a)] == c
  {
    ReachRecycled(a, c);
    var recycled := Holding(a, c, [c], None, Unsetting(a));
    ReachNext(recycled, LockForGet(2, a));
    var searching := Next(recycled, LockForGet(2, a));
    ReachNext(searching, SeePooled(2));
    var popping := Next(searching, SeePooled(2));
    ReachNext(popping, Pop(2));
    assert Next(popping, Pop(2)).slots[Slot(1, a)] == c;
  }
}
