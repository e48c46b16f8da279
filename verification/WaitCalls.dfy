/** What each call of wait and notify does between two releases of the lock. While a thread
    holds the lock nobody else moves, so its steps follow one another in every run. */
module WaitCalls {
  import opened Bits
  import opened WaitNotify
  import opened WakeUp

  /** The step a thread at `pc` takes next, if it may not act otherwise. */
  predicate NextOf(pc: Pc, a: Action) {
    match pc
    case Out => a.EnterWait? || a.EnterNotify?
    case Compare(_, _) => a.DoCompare?
    case Acquire(_, _, _) => a.DoAcquire?
    case Insert(_) => a.DoInsert?
    case ToSleep(_) => a.Sleep?
    case Asleep(_) => a.Wake?
    case Test(_) => a.DoTest?
    case Remove(_) => a.DoRemove?
    case Release(_, _) => a.DoRelease?
    case Notify(_, _) => a.DoNotify?
    case Unlock => a.DoUnlock?
  }

  /** While `t` holds the lock every step is its own next one. */
  lemma Forced(s: State, t: nat, a: Action)
    requires LockInv(s) && s.lock == Some(t) && Enabled(s, a)
    ensures a.t == t && NextOf(PcOf(s, t), a)
  {
    assert !HoldsLock(PcOf(s, a.t)) ==> s.lock.None?;
    assert HoldsLock(PcOf(s, a.t)) ==> s.lock == Some(a.t);
  }

  lemma ForcedInRun(s: State, t: nat, run: seq<Action>)
    requires Inv(s) && s.lock == Some(t) && ValidRun(s, run) && run != []
    ensures run[0].t == t && NextOf(PcOf(s, t), run[0]) && Inv(Apply(s, run[0]))
    ensures ValidRun(Apply(s, run[0]), run[1..]) && |run[1..]| == |run| - 1
    ensures After(s, run) == After(Apply(s, run[0]), run[1..])
  {
    Forced(s, t, run[0]);
    StepKeepsInv(s, run[0]);
  }

  /** The shared state is as before but for the log, and `t` has returned. */
  predicate ReturnedWith(s: State, r: State, t: nat, e: Event) {
    && r.lock.None? && r.waitMap == s.waitMap && r.lists == s.lists && r.status == s.status
    && r.log == s.log + [e] && PcOf(r, t).Out?
  }

  // ----- A wait that does not wait -----

  /** In every run a wait that finds another value returns 1 next, leaving no trace. */
  lemma MismatchReturns(s: State, t: nat, run: seq<Action>)
    requires Inv(s) && PcOf(s, t).Compare? && ValidRun(s, run) && |run| >= 2
    requires run[0].DoCompare? && !run[0].matches
    ensures var u := Apply(s, run[0]);
            && run[0].t == t && Enabled(u, run[1])
            && ReturnedWith(s, Apply(u, run[1]), t, NotWaited(t, PcOf(s, t).addr, 1))
  {
    assert s.lock == Some(t);
    ForcedInRun(s, t, run);
    Forced(Apply(s, run[0]), t, run[1..][0]);
  }

  /** Without memory for a node it returns -1, leaving no trace. */
  lemma NoNodeReturns(s: State, t: nat, run: seq<Action>)
    requires Inv(s) && PcOf(s, t).Compare? && ValidRun(s, run) && |run| >= 2
    requires run[0].DoCompare? && run[0].matches && run[0].alloc.None?
    ensures var u := Apply(s, run[0]);
            && run[0].t == t && Enabled(u, run[1])
            && ReturnedWith(s, Apply(u, run[1]), t, NotWaited(t, PcOf(s, t).addr, -1))
  {
    assert s.lock == Some(t);
    ForcedInRun(s, t, run);
    Forced(Apply(s, run[0]), t, run[1..][0]);
  }

  /** The address is not mapped and there is no memory for a wait info. */
  predicate NoInfo(s: State, addr: nat, a: Action) {
    a.DoAcquire? && a.alloc.None? && addr !in s.waitMap
  }

  /** The step that makes the node. */
  lemma CompareMatches(s: State, t: nat, a: Action)
    requires Inv(s) && PcOf(s, t).Compare? && Enabled(s, a) && a.t == t && a.DoCompare? && a.matches && a.alloc.Some?
    ensures var pc, n, u := PcOf(s, t), a.alloc.value, Apply(s, a);
            && n !in s.status && u.status == s.status[n := Waiting] && u.lock == Some(t)
            && u.waitMap == s.waitMap && u.lists == s.lists && u.log == s.log
            && PcOf(u, t) == Acquire(pc.addr, n, pc.left)
  {
  }

  lemma NoInfoEnds(u: State, t: nat, rest: seq<Action>)
    requires Inv(u) && u.lock == Some(t) && PcOf(u, t).Acquire? && ValidRun(u, rest) && |rest| >= 2
    requires NoInfo(u, PcOf(u, t).addr, rest[0])
    ensures var pc := PcOf(u, t);
            && Enabled(Apply(u, rest[0]), rest[1])
            && var r := Apply(Apply(u, rest[0]), rest[1]);
               && r.lock.None? && r.waitMap == u.waitMap && r.lists == u.lists && r.status == u.status - {pc.node}
               && r.log == u.log + [NotWaited(t, pc.addr, -1)] && PcOf(r, t).Out?
  {
    ForcedInRun(u, t, rest);
    Forced(Apply(u, rest[0]), t, rest[1..][0]);
  }

  /** Without memory for the wait info it frees the node and returns -1. */
  lemma NoInfoReturns(s: State, t: nat, run: seq<Action>)
    requires Inv(s) && PcOf(s, t).Compare? && ValidRun(s, run) && |run| >= 3
    requires run[0].DoCompare? && run[0].matches && run[0].alloc.Some? && NoInfo(s, PcOf(s, t).addr, run[1])
    ensures var u := Apply(s, run[0]);
            && run[0].t == t && Enabled(u, run[1]) && Enabled(Apply(u, run[1]), run[2])
            && ReturnedWith(s, Apply(Apply(u, run[1]), run[2]), t, NotWaited(t, PcOf(s, t).addr, -1))
  {
    assert s.lock == Some(t);
    ForcedInRun(s, t, run);
    CompareMatches(s, t, run[0]);
    NoInfoEnds(Apply(s, run[0]), t, run[1..]);
    var n := run[0].alloc.value;
    assert s.status[n := Waiting] - {n} == s.status;
  }

  // ----- A wait that waits -----

  /** `t` waits with node `n` at the front of the list of `addr`, and still holds the lock. */
  predicate Enqueues(s: State, t: nat, addr: nat, n: nat, left: Option<nat>, r: State) {
    && r.log == s.log + [Enqueued(t, addr, n)] && r.lock == Some(t) && r.status == s.status[n := Waiting]
    && PcOf(r, t).ToSleep? && PcOf(r, t).w.addr == addr && PcOf(r, t).w.node == n && PcOf(r, t).w.left == left
    && ListAt(r, addr) == [n] + ListAt(s, addr)
  }

  /** In every run a wait that finds the value and memory is put in front of the list of its
      address before anybody else moves, with a node nobody has used or marked, and then goes
      to sleep. */
  lemma MatchWaits(s: State, t: nat, run: seq<Action>)
    requires Inv(s) && PcOf(s, t).Compare? && ValidRun(s, run) && |run| >= 4
    requires run[0].DoCompare? && run[0].matches && run[0].alloc.Some? && !NoInfo(s, PcOf(s, t).addr, run[1])
    ensures var u := Apply(s, run[0]);
            && Enabled(u, run[1]) && Enabled(Apply(u, run[1]), run[2]) && run[0].alloc.value !in s.status
            && var r := Apply(Apply(u, run[1]), run[2]);
               && Enqueues(s, t, PcOf(s, t).addr, run[0].alloc.value, PcOf(s, t).left, r)
               && Enabled(r, run[3]) && run[3] == Sleep(t)
  {
    assert s.lock == Some(t);
    ForcedInRun(s, t, run);
    CompareMatches(s, t, run[0]);
    var u := Apply(s, run[0]);
    ForcedInRun(u, t, run[1..]);
    AcquireInserts(s, u, t, run[1]);
    InsertEnds(s, PcOf(s, t).addr, run[0].alloc.value, PcOf(s, t).left, Apply(u, run[1]), t, run[1..][1..]);
    assert run[1..][1..][0] == run[2] && run[1..][1..][1] == run[3];
  }

  lemma InsertEnds(s: State, addr: nat, n: nat, left: Option<nat>, v: State, t: nat, rest: seq<Action>)
    requires Inv(v) && v.lock == Some(t) && PcOf(v, t).Insert? && ValidRun(v, rest) && |rest| >= 2
    requires v.status == s.status[n := Waiting] && v.log == s.log && ListAt(v, addr) == ListAt(s, addr)
    requires PcOf(v, t).w.addr == addr && PcOf(v, t).w.node == n && PcOf(v, t).w.left == left
    requires addr in v.waitMap && v.waitMap[addr] == PcOf(v, t).w.info && PcOf(v, t).w.info in v.lists
    ensures Enqueues(s, t, addr, n, left, Apply(v, rest[0]))
    ensures Enabled(Apply(v, rest[0]), rest[1]) && rest[1] == Sleep(t)
  {
    ForcedInRun(v, t, rest);
    Forced(Apply(v, rest[0]), t, rest[1..][0]);
  }

  lemma AcquireInserts(s: State, u: State, t: nat, a: Action)
    requires Inv(u) && u.lock == Some(t) && PcOf(u, t).Acquire? && Enabled(u, a) && a.t == t && a.DoAcquire?
    requires u.waitMap == s.waitMap && u.lists == s.lists && !NoInfo(s, PcOf(u, t).addr, a)
    ensures var pc, v := PcOf(u, t), Apply(u, a);
            && v.lock == Some(t) && PcOf(v, t).Insert? && v.status == u.status && v.log == u.log
            && PcOf(v, t).w.addr == pc.addr && PcOf(v, t).w.node == pc.node && PcOf(v, t).w.left == pc.left
            && pc.addr in v.waitMap && v.waitMap[pc.addr] == PcOf(v, t).w.info && PcOf(v, t).w.info in v.lists
            && ListAt(v, pc.addr) == ListAt(s, pc.addr)
  {
  }

  // ----- The test after a wake-up -----

  /** Whether the thread stops waiting. */
  predicate StopsAt(s: State, w: Wait, terminated: bool) {
    terminated || TimedOut(w.left) || (w.node in s.status && s.status[w.node].Notified?)
  }

  /** The removal of a node and the release of its list, at whose end the lock is freed. */
  lemma RemoveLogs(u: State, t: nat, a: Action)
    requires Inv(u) && u.lock == Some(t) && PcOf(u, t).Remove? && Enabled(u, a) && a.t == t && a.DoRemove?
    ensures var w, v := PcOf(u, t).w, Apply(u, a);
            && w.node in u.status && v.lock == Some(t) && v.status == u.status - {w.node}
            && v.log == u.log + [Left(t, w.addr, w.node, if u.status[w.node].Notified? then 0 else 2)]
            && PcOf(v, t) == Release(w.addr, w.info) && w.addr in v.waitMap && v.waitMap[w.addr] == w.info
            && ListAt(v, w.addr) == Without(ListAt(u, w.addr), w.node)
  {
  }

  lemma ReleaseKeeps(v: State, t: nat, a: Action, addr: nat)
    requires Inv(v) && v.lock == Some(t) && PcOf(v, t).Release? && Enabled(v, a) && a.t == t && a.DoRelease?
    requires addr == PcOf(v, t).addr && addr in v.waitMap && v.waitMap[addr] == PcOf(v, t).info
    ensures var x := Apply(v, a);
            && x.lock == Some(t) && x.status == v.status && x.log == v.log && PcOf(x, t).Unlock?
            && ListAt(x, addr) == ListAt(v, addr) && (addr in x.waitMap <==> ListAt(x, addr) != [])
  {
  }

  /** In every run a thread that tests stops waiting exactly if it is marked, timed out or
      terminated. Then its next three steps, before anybody else moves, take its node out,
      log its return, 0 exactly if it was marked and otherwise 2, and free the lock. */
  lemma StopReturns(s: State, t: nat, run: seq<Action>)
    requires Inv(s) && PcOf(s, t).Test? && ValidRun(s, run) && |run| >= 4
    requires run[0].DoTest? && StopsAt(s, PcOf(s, t).w, run[0].terminated)
    ensures run[0].t == t && PcOf(s, t).w.node in s.status
    ensures var w, u := PcOf(s, t).w, Apply(s, run[0]);
            && Enabled(u, run[1]) && Enabled(Apply(u, run[1]), run[2])
            && Enabled(Apply(Apply(u, run[1]), run[2]), run[3])
            && Stopped(s, t, w, Apply(Apply(Apply(u, run[1]), run[2]), run[3]))
  {
    var w := PcOf(s, t).w;
    assert s.lock == Some(t);
    ForcedInRun(s, t, run);
    var u := Apply(s, run[0]);
    TestStops(s, t, run[0]);
    ForcedInRun(u, t, run[1..]);
    RemoveLogs(u, t, run[1]);
    StopEnds(s, t, w, Apply(u, run[1]), run[1..][1..]);
    assert run[1..][1..][0] == run[2] && run[1..][1..][1] == run[3];
  }

  lemma TestStops(s: State, t: nat, a: Action)
    requires Enabled(s, a) && a.DoTest? && a.t == t && StopsAt(s, PcOf(s, t).w, a.terminated)
    ensures Apply(s, a) == At(s, t, Remove(PcOf(s, t).w))
  {
  }

  /** `t` has returned from the wait `w`: nobody else is concerned. */
  predicate Stopped(s: State, t: nat, w: Wait, r: State)
    requires w.node in s.status
  {
    && r.lock.None? && PcOf(r, t).Out? && r.status == s.status - {w.node}
    && r.log == s.log + [Left(t, w.addr, w.node, if s.status[w.node].Notified? then 0 else 2)]
    && ListAt(r, w.addr) == Without(ListAt(s, w.addr), w.node) && (w.addr in r.waitMap <==> ListAt(r, w.addr) != [])
  }

  lemma StopEnds(s: State, t: nat, w: Wait, v: State, rest: seq<Action>)
    requires Inv(v) && v.lock == Some(t) && PcOf(v, t) == Release(w.addr, w.info) && ValidRun(v, rest) && |rest| >= 2
    requires w.node in s.status && v.status == s.status - {w.node} && w.addr in v.waitMap && v.waitMap[w.addr] == w.info
    requires v.log == s.log + [Left(t, w.addr, w.node, if s.status[w.node].Notified? then 0 else 2)]
    requires ListAt(v, w.addr) == Without(ListAt(s, w.addr), w.node)
    ensures Enabled(Apply(v, rest[0]), rest[1]) && Stopped(s, t, w, Apply(Apply(v, rest[0]), rest[1]))
  {
    ForcedInRun(v, t, rest);
    ReleaseKeeps(v, t, rest[0], w.addr);
    Forced(Apply(v, rest[0]), t, rest[1..][0]);
  }

  function OneSecondLess(w: Wait): Wait
    requires !TimedOut(w.left)
  {
    w.(left := match w.left
               case None => None
               case Some(left) => Some(left - ONE_SECOND))
  }

  lemma TestGoesOn(s: State, t: nat, a: Action)
    requires Enabled(s, a) && a.DoTest? && a.t == t && !StopsAt(s, PcOf(s, t).w, a.terminated)
    ensures Apply(s, a) == At(s, t, ToSleep(OneSecondLess(PcOf(s, t).w)))
  {
  }

  /** Otherwise it goes back to sleep with a second less to wait, and nothing else changes. */
  lemma TestSleepsOn(s: State, t: nat, run: seq<Action>)
    requires Inv(s) && PcOf(s, t).Test? && ValidRun(s, run) && |run| >= 2
    requires run[0].DoTest? && !StopsAt(s, PcOf(s, t).w, run[0].terminated)
    ensures var u := Apply(s, run[0]);
            && Enabled(u, run[1])
            && var r := Apply(u, run[1]);
               && r.lock.None? && r.waitMap == s.waitMap && r.lists == s.lists && r.status == s.status && r.log == s.log
               && PcOf(r, t) == Asleep(OneSecondLess(PcOf(s, t).w))
  {
    assert s.lock == Some(t);
    ForcedInRun(s, t, run);
    TestGoesOn(s, t, run[0]);
    Forced(Apply(s, run[0]), t, run[1..][0]);
  }

  // ----- Whole calls -----

  lemma Entered(s: State, t: nat, a: Action, run: seq<Action>)
    requires Inv(s) && ValidRun(s, run) && run != [] && run[0] == a && a.t == t && (a.EnterWait? || a.EnterNotify?)
    ensures var u := Apply(s, a);
            && Inv(u) && u == At(s.(lock := Some(t)), t, PcOf(u, t)) && ValidRun(u, run[1..])
            && (a.EnterWait? ==> PcOf(u, t) == Compare(a.addr, if a.timeout < 0 then None else Some(a.timeout / 1000)))
            && (a.EnterNotify? ==> PcOf(u, t) == Notify(a.addr, a.count))
  {
    StepKeepsInv(s, a);
  }

  /** In every run a call of wait on an address that does not hold the expected value returns 1
      in its next steps, and leaves no trace but that. */
  lemma WaitMismatch(s: State, t: nat, addr: nat, timeout: int, run: seq<Action>)
    requires Inv(s) && ValidRun(s, run) && |run| >= 3 && run[0] == EnterWait(t, addr, timeout)
    requires run[1].DoCompare? && !run[1].matches
    ensures var u := Apply(s, run[0]);
            && Enabled(u, run[1]) && Enabled(Apply(u, run[1]), run[2])
            && ReturnedWith(s, Apply(Apply(u, run[1]), run[2]), t, NotWaited(t, addr, 1))
  {
    Entered(s, t, run[0], run);
    MismatchReturns(Apply(s, run[0]), t, run[1..]);
    assert run[1..][0] == run[1] && run[1..][1] == run[2];
  }

  /** In every run a call of wait that finds the expected value and memory is in the list of its
      address, in front, when it first gives up the lock, and has logged that. */
  lemma WaitMatch(s: State, t: nat, addr: nat, timeout: int, run: seq<Action>)
    requires Inv(s) && ValidRun(s, run) && |run| >= 5 && run[0] == EnterWait(t, addr, timeout)
    requires run[1].DoCompare? && run[1].matches && run[1].alloc.Some? && !NoInfo(s, addr, run[2])
    ensures var u := Apply(s, run[0]);
            && Enabled(u, run[1]) && Enabled(Apply(u, run[1]), run[2])
            && Enabled(Apply(Apply(u, run[1]), run[2]), run[3])
            && var r := Apply(Apply(Apply(u, run[1]), run[2]), run[3]);
               && Enqueues(s, t, addr, run[1].alloc.value, if timeout < 0 then None else Some(timeout / 1000), r)
               && run[1].alloc.value !in s.status && Enabled(r, run[4]) && run[4] == Sleep(t)
  {
    Entered(s, t, run[0], run);
    var rest := run[1..];
    assert rest[0] == run[1] && rest[1] == run[2] && rest[2] == run[3] && rest[3] == run[4];
    MatchWaits(Apply(s, run[0]), t, rest);
  }

  /** In every run a call of notify marks the first nodes of the list of its address up to its
      count in its next steps, logs them, and changes nothing else; on an address nobody
      waits on it does nothing. */
  lemma NotifyCall(s: State, t: nat, addr: nat, count: nat, run: seq<Action>)
    requires Inv(s) && ValidRun(s, run) && |run| >= 3 && run[0] == EnterNotify(t, addr, count)
    ensures var u := Apply(s, run[0]);
            && Enabled(u, run[1]) && Enabled(Apply(u, run[1]), run[2])
            && var nodes := ListAt(s, addr)[..Min(count, |ListAt(s, addr)|)];
               HasNotified(s, t, addr, nodes, Apply(Apply(u, run[1]), run[2]))
  {
    Entered(s, t, run[0], run);
    NotifyEnds(Apply(s, run[0]), t, run[1..]);
    assert run[1..][0] == run[1] && run[1..][1] == run[2];
  }

  predicate HasNotified(s: State, t: nat, addr: nat, nodes: seq<nat>, r: State) {
    && r.lock.None? && PcOf(r, t).Out? && r.waitMap == s.waitMap && r.lists == s.lists && r.status.Keys == s.status.Keys
    && (forall n :: n in s.status ==> r.status[n] == if n in nodes then Status.Notified else s.status[n])
    && r.log == s.log + if addr in s.waitMap then [Marked(addr, nodes)] else []
  }

  lemma NotifyEnds(u: State, t: nat, rest: seq<Action>)
    requires Inv(u) && u.lock == Some(t) && PcOf(u, t).Notify? && ValidRun(u, rest) && |rest| >= 2
    ensures var addr := PcOf(u, t).addr; var nodes := ListAt(u, addr)[..Min(PcOf(u, t).count, |ListAt(u, addr)|)];
            && Enabled(Apply(u, rest[0]), rest[1])
            && HasNotified(u, t, addr, nodes, Apply(Apply(u, rest[0]), rest[1]))
  {
    ForcedInRun(u, t, rest);
    Forced(Apply(u, rest[0]), t, rest[1..][0]);
  }

  // ----- A wait without a timeout -----

  /** The thread is in the middle of a wait whose timeout is negative. */
  predicate Untimed(pc: Pc) {
    || ((pc.Compare? || pc.Acquire?) && pc.left.None?)
    || ((pc.Insert? || pc.ToSleep? || pc.Asleep? || pc.Test?) && pc.w.left.None?)
  }

  lemma StepUntimed(s: State, a: Action, t: nat)
    requires Inv(s) && Enabled(s, a) && Untimed(PcOf(s, t)) && a != DoTest(t, true)
    ensures Untimed(PcOf(Apply(s, a), t)) || Decided(Apply(s, a), t)
  {
    Frame(s, a);
  }

  lemma {:induction false} RunUntimed(s: State, run: seq<Action>, t: nat)
    requires Inv(s) && ValidRun(s, run) && Untimed(PcOf(s, t)) && DoUnlock(t) !in run && DoTest(t, true) !in run
    ensures Untimed(PcOf(After(s, run), t)) || Decided(After(s, run), t)
    decreases |run|
  {
    if run != [] {
      var r := Apply(s, run[0]);
      StepKeepsInv(s, run[0]);
      StepUntimed(s, run[0], t);
      if Decided(r, t) {
        RunKeepsDecided(r, run[1..], t);
      } else {
        RunUntimed(r, run[1..], t);
      }
    }
  }

  lemma ForeverFrom(s: State, t: nat, addr: nat, timeout: int, run: seq<Action>)
    requires Inv(s) && Enabled(s, EnterWait(t, addr, timeout)) && timeout < 0
    requires ValidRun(Apply(s, EnterWait(t, addr, timeout)), run) && DoUnlock(t) !in run && DoTest(t, true) !in run
    ensures !LeavesUnmarked(After(Apply(s, EnterWait(t, addr, timeout)), run), t)
  {
    StepKeepsInv(s, EnterWait(t, addr, timeout));
    RunUntimed(Apply(s, EnterWait(t, addr, timeout)), run, t);
  }

  /** In every run a wait with a negative timeout never leaves unless it is marked or its thread
      is found terminated. */
  lemma ForeverWaits(before: seq<Action>, t: nat, addr: nat, timeout: int, run: seq<Action>)
    requires ValidRun(INIT, before) && Enabled(After(INIT, before), EnterWait(t, addr, timeout)) && timeout < 0
    requires ValidRun(Apply(After(INIT, before), EnterWait(t, addr, timeout)), run)
    requires DoUnlock(t) !in run && DoTest(t, true) !in run
    ensures !LeavesUnmarked(After(Apply(After(INIT, before), EnterWait(t, addr, timeout)), run), t)
  {
    RunKeepsInv(INIT, before);
    ForeverFrom(After(INIT, before), t, addr, timeout, run);
  }

  // ----- Every call returns once -----

  /** How often a wait of `t` has returned. */
  function Returns(log: seq<Event>, t: nat): nat {
    if log == [] then 0
    else
      var e := log[|log| - 1];
      Returns(log[..|log| - 1], t) + if (e.Left? || e.NotWaited?) && e.t == t then 1 else 0
  }

  /** A wait of the thread has begun and has not logged its return yet. */
  function Pending(pc: Pc): nat {
    if pc.Compare? || pc.Acquire? || pc.Insert? || InList(pc) then 1 else 0
  }

  lemma ReturnsMore(log: seq<Event>, e: Event, t: nat)
    ensures Returns(log + [e], t) == Returns(log, t) + if (e.Left? || e.NotWaited?) && e.t == t then 1 else 0
  {
    assert (log + [e])[..|log|] == log;
  }

  /** What a step adds to the log of returns: one by the thread that takes it. */
  function Logged(s: State, a: Action): seq<Event>
    requires Enabled(s, a)
    ensures s.log + Logged(s, a) == Apply(s, a).log && |Logged(s, a)| <= 1
  {
    Apply(s, a).log[|s.log|..]
  }

  lemma LoggedReturn(s: State, a: Action)
    requires Enabled(s, a)
    ensures (Logged(s, a) != [] && (Logged(s, a)[0].Left? || Logged(s, a)[0].NotWaited?)) <==>
              Pending(PcOf(s, a.t)) == 1 && Pending(PcOf(Apply(s, a), a.t)) == 0
    ensures Logged(s, a) != [] && (Logged(s, a)[0].Left? || Logged(s, a)[0].NotWaited?) ==> Logged(s, a)[0].t == a.t
  {
  }

  lemma LogReturns(s: State, a: Action, t: nat)
    requires Enabled(s, a)
    ensures Returns(Apply(s, a).log, t) == Returns(s.log, t)
              + if a.t == t && Pending(PcOf(s, t)) == 1 && Pending(PcOf(Apply(s, a), t)) == 0 then 1 else 0
  {
    LoggedReturn(s, a);
    if Logged(s, a) != [] {
      ReturnsMore(s.log, Logged(s, a)[0], t);
      assert Logged(s, a) == [Logged(s, a)[0]];
    } else {
      assert Apply(s, a).log == s.log;
    }
  }

  lemma StepReturns(s: State, a: Action, t: nat)
    requires Enabled(s, a) && !(a.EnterWait? && a.t == t)
    ensures Returns(Apply(s, a).log, t) + Pending(PcOf(Apply(s, a), t)) == Returns(s.log, t) + Pending(PcOf(s, t))
  {
    LogReturns(s, a, t);
    if a.t == t {
      BeginsOnly(s, a);
    } else {
      Frame(s, a);
    }
  }

  lemma BeginsOnly(s: State, a: Action)
    requires Enabled(s, a) && !a.EnterWait?
    ensures Pending(PcOf(Apply(s, a), a.t)) <= Pending(PcOf(s, a.t))
  {
  }

  lemma {:induction false} RunReturns(s: State, run: seq<Action>, t: nat)
    requires ValidRun(s, run) && forall k :: 0 <= k < |run| ==> !(run[k].EnterWait? && run[k].t == t)
    ensures Returns(After(s, run).log, t) + Pending(PcOf(After(s, run), t)) == Returns(s.log, t) + Pending(PcOf(s, t))
    decreases |run|
  {
    if run != [] {
      StepReturns(s, run[0], t);
      RunReturns(Apply(s, run[0]), run[1..], t);
    }
  }

  /** In every run, once a call of wait is over it has logged exactly one return. */
  lemma ReturnsOnce(s: State, t: nat, addr: nat, timeout: int, run: seq<Action>)
    requires Enabled(s, EnterWait(t, addr, timeout)) && ValidRun(Apply(s, EnterWait(t, addr, timeout)), run)
    requires forall k :: 0 <= k < |run| ==> !(run[k].EnterWait? && run[k].t == t)
    requires PcOf(After(Apply(s, EnterWait(t, addr, timeout)), run), t).Out?
    ensures Returns(After(Apply(s, EnterWait(t, addr, timeout)), run).log, t) == Returns(s.log, t) + 1
  {
    RunReturns(Apply(s, EnterWait(t, addr, timeout)), run, t);
  }
}
