/** The pool's lock cannot be kept for ever, and no thread is stuck but for the lock. */
module PoolProgress {
  import opened Options
  import opened PoolProtocol

  /** Every thread at work can go on, unless it waits for a lock that another one holds. */
  lemma ThreadCanStep(s: State, t: Thread)
    requires SlotInv(s) && SeenInv(s) && !s.Pc(t).Idle? && (s.Pc(t).Waiting? ==> s.lock.None?)
    ensures exists step: Step :: step.t == t && Enabled(s, step)
  {
    var step := NextStep(s, t);
    assert step.t == t && Enabled(s, step);
  }

  /** One of the steps the thread can take. */
  function NextStep(s: State, t: Thread): Step {
    var pc := s.Pc(t);
    match pc
    case Idle => GetWithoutPool(t, Adapter(0, "", 0))
    case Searching(a) => if PoolOf(s, a.uri) == [] then Exhausted(t) else SeePooled(t)
    case Popping(_) => Pop(t)
    case Testing(_) => TestPasses(t)
    case Opening(_) => ConnectRaises(t)
    case Acting(_, _) => ActionDone(t)
    case Waiting(_, _) => LockForClose(t)
    case Measuring(a, _) =>
      if a.uri !in s.pools then PoolMissing(t) else if |PoolOf(s, a.uri)| < a.poolSize then SeeRoom(t) else SeeNoRoom(t)
    case Appending(_) => Append(t)
    case Recycled(_) => UnlockRecycled(t)
    case Full(_, _) => UnlockFull(t)
    case Dropping(_, really) => if really then CloseReally(t) else LeaveOpen(t)
    case Unsetting(_) => Unset(t)
  }

  /** How many steps under the lock are left to a thread that holds it, at most. */
  function Work(s: State, t: Thread): nat {
    var pc := s.Pc(t);
    match pc
    case Searching(a) => 3 * |PoolOf(s, a.uri)| + 1
    case Popping(a) => 3 * |PoolOf(s, a.uri)|
    case Testing(a) => 3 * |PoolOf(s, a.uri)| + 2
    case Measuring(_, _) => 3
    case Appending(_) => 2
    case Recycled(_) => 1
    case Full(_, _) => 1
    case _ => 0
  }

  /** A step of the holder uses up some of its work or gives the lock back; a step of another thread
      leaves both as they are. */
  lemma WorkShrinks(s: State, step: Step, t: Thread)
    requires LockInv(s) && s.lock == Some(t) && Enabled(s, step)
    ensures step.t == t ==> Work(Next(s, step), t) < Work(s, t)
    ensures step.t == t && Next(s, step).lock != Some(t) ==> Next(s, step).lock == None
    ensures step.t != t ==> Next(s, step).lock == Some(t) && Work(Next(s, step), t) == Work(s, t)
  {
    assert HoldsLock(s.Pc(t)) <==> s.lock == Some(t);
    assert HoldsLock(s.Pc(step.t)) <==> s.lock == Some(step.t);
    if step.t == t {
      if s.Pc(t).Searching? || s.Pc(t).Popping? || s.Pc(t).Testing? {
        SearchWorks(s, step);
      } else {
        RecycleWorks(s, step);
      }
    } else {
      PoolsStill(s, step, t);
    }
  }

  lemma SearchWorks(s: State, step: Step)
    requires s.lock == Some(step.t) && Enabled(s, step)
    requires s.Pc(step.t).Searching? || s.Pc(step.t).Popping? || s.Pc(step.t).Testing?
    ensures Work(Next(s, step), step.t) < Work(s, step.t)
    ensures Next(s, step).lock == Some(step.t) || Next(s, step).lock == None
  {
  }

  lemma RecycleWorks(s: State, step: Step)
    requires s.lock == Some(step.t) && Enabled(s, step)
    requires s.Pc(step.t).Measuring? || s.Pc(step.t).Appending? || s.Pc(step.t).Recycled? || s.Pc(step.t).Full?
    ensures Work(Next(s, step), step.t) < Work(s, step.t)
    ensures Next(s, step).lock == Some(step.t) || Next(s, step).lock == None
  {
  }

  lemma OneStepWorks(s: State, step: Step, t: Thread)
    requires LockInv(s) && s.lock == Some(t) && Enabled(s, step)
    ensures (if step.t == t then 1 else 0) + Work(Next(s, step), t) <= Work(s, t)
  {
    WorkShrinks(s, step, t);
  }

  function StepsOf(steps: seq<Step>, t: Thread): nat {
    if steps == [] then 0
    else StepsOf(steps[..|steps| - 1], t) + if steps[|steps| - 1].t == t then 1 else 0
  }

  /** Over every interleaving in which `t` keeps the lock, `t` takes no more than so many steps. */
  lemma {:induction false} LockIsGivenBack(s: State, steps: seq<Step>, t: Thread, cap: string -> nat)
    requires Inv(s, cap) && Run(s, steps).Some? && forall i | 0 <= i < |steps| :: Configured(steps[i], cap)
    requires forall i | 0 <= i < |steps| :: Run(s, steps[..i]).Some? && Run(s, steps[..i]).value.lock == Some(t)
    ensures StepsOf(steps, t) + Work(Run(s, steps).value, t) <= Work(s, t)
    decreases |steps|
  {
    if steps != [] {
      var n := |steps| - 1;
      var most := steps[..n];
      forall i | 0 <= i < n ensures Run(s, most[..i]).Some? && Run(s, most[..i]).value.lock == Some(t) {
        assert most[..i] == steps[..i];
      }
      LockIsGivenBack(s, most, t, cap);
      RunKeepsInv(s, most, cap);
      OneStepWorks(Run(s, most).value, steps[n], t);
      assert Run(s, steps) == Some(Next(Run(s, most).value, steps[n]));
    }
  }
}
