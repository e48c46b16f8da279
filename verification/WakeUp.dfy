/** What becomes of the threads a notify marks, in every continuation. */
module WakeUp {
  import opened Bits
  import opened WaitNotify

  /** The first return of `u` from a wait that the log records from position `from` on. */
  function NextLeave(log: seq<Event>, from: nat, u: nat): (r: Option<Event>)
    ensures r.Some? ==> r.value.Left? && r.value.t == u
    decreases |log| - from
  {
    if from >= |log| then None
    else if log[from].Left? && log[from].t == u then Some(log[from])
    else NextLeave(log, from + 1, u)
  }

  /** Thread `u` waits with node `n`, which a notify has marked. */
  predicate MarkedWaiter(s: State, u: nat, n: nat) {
    InList(PcOf(s, u)) && PcOf(s, u).w.node == n && n in s.status && s.status[n].Notified?
  }

  /** Since the log had length `from`, `u` has first returned from its wait on `n` with 0, or
      it has not returned and is still marked. */
  predicate ReturnsZero(s: State, from: nat, u: nat, n: nat) {
    match NextLeave(s.log, from, u)
    case None => MarkedWaiter(s, u, n)
    case Some(e) => e.node == n && e.code == 0
  }

  /** A mark stays until its owner leaves. */
  lemma StepKeepsMarked(s: State, a: Action, u: nat, n: nat)
    requires Inv(s) && Enabled(s, a) && MarkedWaiter(s, u, n) && a != DoRemove(u)
    ensures MarkedWaiter(Apply(s, a), u, n)
  {
    Frame(s, a);
    assert OwnsNode(PcOf(s, u)) && NodeOf(PcOf(s, u)) == n;
  }

  /** Only the owner's removal logs its return, and that of a marked waiter with 0. */
  lemma StepLogs(s: State, a: Action, u: nat, n: nat)
    requires Inv(s) && Enabled(s, a) && MarkedWaiter(s, u, n)
    ensures a == DoRemove(u) ==> Apply(s, a).log == s.log + [Left(u, PcOf(s, u).w.addr, n, 0)]
    ensures a != DoRemove(u) ==>
              Apply(s, a).log == s.log
              || exists e: Event :: Apply(s, a).log == s.log + [e] && !(e.Left? && e.t == u)
  {
    var r := Apply(s, a);
    if r.log != s.log {
      assert r.log == s.log + [r.log[|s.log|]];
    }
  }

  lemma {:induction false} LogGrows(s: State, run: seq<Action>)
    requires ValidRun(s, run)
    ensures s.log <= After(s, run).log
    decreases |run|
  {
    if run != [] {
      LogGrows(Apply(s, run[0]), run[1..]);
    }
  }

  /** The first event of a log's continuation decides, unless it is not a return of `u`. */
  lemma LeaveFirst(log: seq<Event>, more: seq<Event>, e: Event, u: nat)
    requires log + [e] <= more
    ensures NextLeave(more, |log|, u) == if e.Left? && e.t == u then Some(e) else NextLeave(more, |log| + 1, u)
  {
    assert more[|log|] == (log + [e])[|log|] == e;
  }

  lemma LeavesWithZero(log: seq<Event>, addr: nat, u: nat, n: nat, end: State)
    requires log + [Left(u, addr, n, 0)] <= end.log
    ensures ReturnsZero(end, |log|, u, n)
  {
    LeaveFirst(log, end.log, Left(u, addr, n, 0), u);
  }

  /** Events that are not a return of `u` do not matter. */
  lemma StillReturnsZero(log: seq<Event>, now: seq<Event>, u: nat, n: nat, end: State)
    requires now == log || exists e: Event :: now == log + [e] && !(e.Left? && e.t == u)
    requires now <= end.log && ReturnsZero(end, |now|, u, n)
    ensures ReturnsZero(end, |log|, u, n)
  {
    if now != log {
      LeaveFirst(log, end.log, now[|log|], u);
    }
  }

  lemma {:induction false} MarkedReturnsZero(s: State, u: nat, n: nat, later: seq<Action>)
    requires Inv(s) && MarkedWaiter(s, u, n) && ValidRun(s, later)
    ensures ReturnsZero(After(s, later), |s.log|, u, n)
    decreases |later|
  {
    if later != [] {
      var a, r := later[0], Apply(s, later[0]);
      StepLogs(s, a, u, n);
      LogGrows(r, later[1..]);
      if a == DoRemove(u) {
        LeavesWithZero(s.log, PcOf(s, u).w.addr, u, n, After(s, later));
      } else {
        StepKeepsInv(s, a);
        StepKeepsMarked(s, a, u, n);
        MarkedReturnsZero(r, u, n, later[1..]);
        StillReturnsZero(s.log, r.log, u, n, After(s, later));
      }
    }
  }

  /** The list of an address, empty if the address is not mapped. */
  function ListAt(s: State, addr: nat): seq<nat> {
    if addr in s.waitMap && s.waitMap[addr] in s.lists then s.lists[s.waitMap[addr]] else []
  }

  /** The notify that `t` is about to make reaches `u`: it waits on that address, and the count
      is at least the length of the list or covers its node. */
  predicate Reaches(s: State, t: nat, u: nat) {
    && PcOf(s, t).Notify? && WaitsAt(s, u, PcOf(s, t).addr)
    && var list := ListAt(s, PcOf(s, t).addr);
       PcOf(s, t).count >= |list| || PcOf(s, u).w.node in ToMark(list, PcOf(s, t).count)
  }

  lemma NotifyReaches(run: seq<Action>, t: nat, u: nat)
    requires ValidRun(INIT, run) && Reaches(After(INIT, run), t, u)
    ensures var s := After(INIT, run);
            && Enabled(s, DoNotify(t)) && Inv(Apply(s, DoNotify(t)))
            && MarkedWaiter(Apply(s, DoNotify(t)), u, PcOf(s, u).w.node)
  {
    var s := After(INIT, run);
    RunKeepsInv(INIT, run);
    NotifyMarks(run, t, u);
    ListOwners(s, PcOf(s, t).addr, u);
    Frame(s, DoNotify(t));
    StepKeepsInv(s, DoNotify(t));
  }

  /** A thread that a notify reaches returns 0 from that wait, in every continuation of every
      run. */
  lemma NotifiedReturnZero(run: seq<Action>, t: nat, u: nat, later: seq<Action>)
    requires ValidRun(INIT, run) && Reaches(After(INIT, run), t, u)
    requires Enabled(After(INIT, run), DoNotify(t)) && ValidRun(Apply(After(INIT, run), DoNotify(t)), later)
    ensures var s := After(INIT, run);
            var r := Apply(s, DoNotify(t));
            ReturnsZero(After(r, later), |r.log|, u, PcOf(s, u).w.node)
  {
    NotifyReaches(run, t, u);
    var s := After(INIT, run);
    MarkedReturnsZero(Apply(s, DoNotify(t)), u, PcOf(s, u).w.node, later);
  }

  /** A notify changes nothing for a thread that waits elsewhere: neither its place and its
      mark, nor the return code that its log determines. */
  lemma ElsewhereUnaffected(run: seq<Action>, t: nat, u: nat)
    requires ValidRun(INIT, run)
    requires var s := After(INIT, run);
             PcOf(s, t).Notify? && InList(PcOf(s, u)) && PcOf(s, u).w.addr != PcOf(s, t).addr
    ensures var s := After(INIT, run); var w := PcOf(s, u).w;
            && Enabled(s, DoNotify(t)) && w.node in s.status
            && var r := Apply(s, DoNotify(t));
               && PcOf(r, u) == PcOf(s, u) && w.node in r.status && r.status[w.node] == s.status[w.node]
               && (MarkedSince(r.log, w.addr, w.node) <==> MarkedSince(s.log, w.addr, w.node))
  {
    var s := After(INIT, run);
    RunKeepsInv(INIT, run);
    NotifyMarks(run, t, u);
    Frame(s, DoNotify(t));
    var pc, w := PcOf(s, t), PcOf(s, u).w;
    if pc.addr in s.waitMap {
      MarkedAppend(s.log, Marked(pc.addr, ToMark(s.lists[s.waitMap[pc.addr]], pc.count)), w.addr, w.node);
    }
  }

  // ----- The rounds of one wait -----

  /** How often thread `t` wakes up in a run. */
  function Wakes(run: seq<Action>, t: nat): nat {
    if run == [] then 0 else (if run[0] == Wake(t) then 1 else 0) + Wakes(run[1..], t)
  }

  /** One round per started second of the microseconds left, at least one. */
  function Rounds(left: nat): nat {
    Max(1, CeilDiv(left, ONE_SECOND))
  }

  /** The thread is in the middle of a wait whose timeout is not negative. */
  predicate Timed(pc: Pc) {
    || ((pc.Compare? || pc.Acquire?) && pc.left.Some?)
    || ((pc.Insert? || InList(pc)) && pc.w.left.Some?)
    || pc.Release? || pc.Unlock?
  }

  /** How often a thread in the middle of a wait can still wake up. */
  function Budget(pc: Pc): nat
    requires Timed(pc)
  {
    if pc.Compare? || pc.Acquire? then Rounds(pc.left.value)
    else if pc.Insert? || pc.ToSleep? || pc.Asleep? then Rounds(pc.w.left.value)
    else if pc.Test? then Rounds(pc.w.left.value) - 1
    else 0
  }

  lemma OneRoundLess(left: nat)
    requires left > ONE_SECOND
    ensures Rounds(left - ONE_SECOND) == Rounds(left) - 1
  {
    assert left + ONE_SECOND - 1 == left - ONE_SECOND + ONE_SECOND - 1 + ONE_SECOND;
  }

  /** A step of a timed wait other than the last uses up at least what it takes. */
  lemma StepSpends(s: State, a: Action, t: nat)
    requires Enabled(s, a) && Timed(PcOf(s, t)) && a != DoUnlock(t)
    ensures var pc := PcOf(Apply(s, a), t);
            Timed(pc) && (if a == Wake(t) then 1 else 0) + Budget(pc) <= Budget(PcOf(s, t))
  {
    Frame(s, a);
    var pc := PcOf(s, t);
    if a.DoTest? && a.t == t && pc.w.left.value > ONE_SECOND {
      OneRoundLess(pc.w.left.value);
    }
  }

  lemma {:induction false} RunSpends(s: State, run: seq<Action>, t: nat)
    requires ValidRun(s, run) && Timed(PcOf(s, t)) && DoUnlock(t) !in run
    ensures var pc := PcOf(After(s, run), t);
            Timed(pc) && Wakes(run, t) + Budget(pc) <= Budget(PcOf(s, t))
    decreases |run|
  {
    if run != [] {
      StepSpends(s, run[0], t);
      RunSpends(Apply(s, run[0]), run[1..], t);
    }
  }

  /** The `timeout` in nanoseconds bounds a wait in every run: from the call until it returns
      its thread wakes up at most once per started second, and at least once is allowed. */
  lemma WakesBounded(s: State, t: nat, addr: nat, timeout: nat, run: seq<Action>)
    requires Enabled(s, EnterWait(t, addr, timeout)) && ValidRun(Apply(s, EnterWait(t, addr, timeout)), run)
    requires DoUnlock(t) !in run
    ensures Wakes(run, t) <= Max(1, CeilDiv(timeout, 1_000_000_000))
  {
    RunSpends(Apply(s, EnterWait(t, addr, timeout)), run, t);
  }

  // ----- A wait that times out -----

  /** The thread is about to leave its wait, and no notify has marked it. */
  predicate LeavesUnmarked(s: State, t: nat) {
    PcOf(s, t).Remove? && PcOf(s, t).w.node in s.status && s.status[PcOf(s, t).w.node].Waiting?
  }

  /** The thread will not leave this wait unmarked any more. */
  predicate Decided(s: State, t: nat) {
    PcOf(s, t).Release? || PcOf(s, t).Unlock? || (InList(PcOf(s, t)) && MarkedWaiter(s, t, PcOf(s, t).w.node))
  }

  lemma StepKeepsDecided(s: State, a: Action, t: nat)
    requires Inv(s) && Enabled(s, a) && Decided(s, t) && a != DoUnlock(t)
    ensures Decided(Apply(s, a), t)
  {
    Frame(s, a);
    if InList(PcOf(s, t)) && a != DoRemove(t) {
      StepKeepsMarked(s, a, t, PcOf(s, t).w.node);
    }
  }

  lemma {:induction false} RunKeepsDecided(s: State, run: seq<Action>, t: nat)
    requires Inv(s) && ValidRun(s, run) && Decided(s, t) && DoUnlock(t) !in run
    ensures Decided(After(s, run), t)
    decreases |run|
  {
    if run != [] {
      StepKeepsInv(s, run[0]);
      StepKeepsDecided(s, run[0], t);
      RunKeepsDecided(Apply(s, run[0]), run[1..], t);
    }
  }

  /** A step that decides nothing uses up exactly what it takes. */
  lemma StepSpendsExactly(s: State, a: Action, t: nat)
    requires Enabled(s, a) && Timed(PcOf(s, t)) && a != DoUnlock(t) && a != DoTest(t, true)
    ensures var pc := PcOf(Apply(s, a), t);
            Decided(Apply(s, a), t)
            || (Timed(pc) && (if a == Wake(t) then 1 else 0) + Budget(pc) == Budget(PcOf(s, t)))
  {
    Frame(s, a);
    var pc := PcOf(s, t);
    if a == DoTest(t, false) && pc.w.left.value > ONE_SECOND {
      OneRoundLess(pc.w.left.value);
    }
  }

  lemma {:induction false} RunSpendsExactly(s: State, run: seq<Action>, t: nat)
    requires Inv(s) && ValidRun(s, run) && Timed(PcOf(s, t)) && DoUnlock(t) !in run && DoTest(t, true) !in run
    requires LeavesUnmarked(After(s, run), t)
    ensures Wakes(run, t) == Budget(PcOf(s, t))
    decreases |run|
  {
    if run != [] {
      var r := Apply(s, run[0]);
      StepKeepsInv(s, run[0]);
      if Decided(r, t) {
        RunKeepsDecided(r, run[1..], t);
      } else {
        StepSpendsExactly(s, run[0], t);
        RunSpendsExactly(r, run[1..], t);
      }
    }
  }

  /** A wait that is neither marked nor terminated leaves after exactly one round per started
      second of its timeout in whole microseconds, and at least one. */
  lemma TimesOut(before: seq<Action>, t: nat, addr: nat, timeout: nat, run: seq<Action>)
    requires ValidRun(INIT, before) && Enabled(After(INIT, before), EnterWait(t, addr, timeout))
    requires ValidRun(Apply(After(INIT, before), EnterWait(t, addr, timeout)), run)
    requires DoUnlock(t) !in run && DoTest(t, true) !in run
    requires LeavesUnmarked(After(Apply(After(INIT, before), EnterWait(t, addr, timeout)), run), t)
    ensures Wakes(run, t) == Max(1, CeilDiv(timeout / 1000, ONE_SECOND))
  {
    var s := After(INIT, before);
    RunKeepsInv(INIT, before);
    StepKeepsInv(s, EnterWait(t, addr, timeout));
    RunSpendsExactly(Apply(s, EnterWait(t, addr, timeout)), run, t);
  }
}
