/** Atomic wait and notify over the global wait map. Threads interleave at every point
    where the shared-memory lock is taken or released and at every change of the map,
    the lists and the nodes in between; node and info identifiers may be reused once freed. */
module WaitNotify {
  import opened Bits

  datatype Status = Waiting | Notified

  /** A wait in progress. `left` is the remaining timeout in microseconds, `None` for a
      negative timeout, which waits until notified or terminated. */
  datatype Wait = Wait(addr: nat, info: nat, node: nat, left: Option<nat>)

  datatype Pc =
    | Out
    | Compare(addr: nat, left: Option<nat>)
    | Acquire(addr: nat, node: nat, left: Option<nat>)
    | Insert(w: Wait)
    | ToSleep(w: Wait)
    | Asleep(w: Wait)
    | Test(w: Wait)
    | Remove(w: Wait)
    | Release(addr: nat, info: nat)
    | Notify(addr: nat, count: nat)
    | Unlock

  /** `Left` and `NotWaited` are the returns of a wait, with and without having waited. */
  datatype Event =
    | Enqueued(t: nat, addr: nat, node: nat)
    | Marked(addr: nat, nodes: seq<nat>)
    | Left(t: nat, addr: nat, node: nat, code: int)
    | NotWaited(t: nat, addr: nat, code: int)

  datatype State = State(
    lock: Option<nat>,
    waitMap: map<nat, nat>,
    lists: map<nat, seq<nat>>,
    status: map<nat, Status>,
    pcs: map<nat, Pc>,
    log: seq<Event>)

  /** One step of thread `t`. What the step cannot know is an input: whether the value in
      memory matches, what the allocator returns, whether the thread is being terminated. */
  datatype Action =
    | EnterWait(t: nat, addr: nat, timeout: int)
    | DoCompare(t: nat, matches: bool, alloc: Option<nat>)
    | DoAcquire(t: nat, alloc: Option<nat>)
    | DoInsert(t: nat)
    | Sleep(t: nat)
    | Wake(t: nat)
    | DoTest(t: nat, terminated: bool)
    | DoRemove(t: nat)
    | DoRelease(t: nat)
    | EnterNotify(t: nat, addr: nat, count: nat)
    | DoNotify(t: nat)
    | DoUnlock(t: nat)

  const ONE_SECOND: nat := 1_000_000

  function PcOf(s: State, t: nat): Pc {
    if t in s.pcs then s.pcs[t] else Out
  }

  predicate HoldsLock(pc: Pc) {
    !pc.Out? && !pc.Asleep?
  }

  /** From list insertion until removal the thread's node is in the list. */
  predicate InList(pc: Pc) {
    pc.ToSleep? || pc.Asleep? || pc.Test? || pc.Remove?
  }

  predicate OwnsNode(pc: Pc) {
    pc.Acquire? || pc.Insert? || InList(pc)
  }

  function NodeOf(pc: Pc): nat
    requires OwnsNode(pc)
  {
    if pc.Acquire? then pc.node else pc.w.node
  }

  function TimeoutWait(left: nat): nat {
    Min(left, ONE_SECOND)
  }

  predicate TimedOut(left: Option<nat>) {
    left.Some? && left.value <= TimeoutWait(left.value)
  }

  function Without(list: seq<nat>, n: nat): seq<nat> {
    if list == [] then []
    else if list[0] == n then list[1..]
    else [list[0]] + Without(list[1..], n)
  }

  /** The nodes a notify marks: the first `count` of the list, newest waiter first. */
  function ToMark(list: seq<nat>, count: nat): seq<nat> {
    list[..Min(count, |list|)]
  }

  function Mark(status: map<nat, Status>, nodes: seq<nat>): map<nat, Status> {
    map n | n in status :: if n in nodes then Notified else status[n]
  }

  predicate Enabled(s: State, a: Action) {
    var pc := PcOf(s, a.t);
    match a
    case EnterWait(_, _, _) => pc.Out? && s.lock.None?
    case DoCompare(_, _, alloc) => pc.Compare? && (alloc.Some? ==> alloc.value !in s.status)
    case DoAcquire(_, alloc) => pc.Acquire? && (alloc.Some? ==> alloc.value !in s.lists)
    case DoInsert(_) => pc.Insert? && pc.w.info in s.lists
    case Sleep(_) => pc.ToSleep?
    case Wake(_) => pc.Asleep? && s.lock.None?
    case DoTest(_, _) => pc.Test? && pc.w.node in s.status
    case DoRemove(_) => pc.Remove? && pc.w.info in s.lists && pc.w.node in s.status
    case DoRelease(_) => pc.Release? && pc.info in s.lists
    case EnterNotify(_, _, _) => pc.Out? && s.lock.None?
    case DoNotify(_) => pc.Notify? && (pc.addr in s.waitMap ==> s.waitMap[pc.addr] in s.lists)
    case DoUnlock(_) => pc.Unlock?
  }

  function At(s: State, t: nat, pc: Pc): State {
    s.(pcs := s.pcs[t := pc])
  }

  function Apply(s: State, a: Action): State
    requires Enabled(s, a)
  {
    var pc := PcOf(s, a.t);
    match a
    case EnterWait(t, addr, timeout) =>
      At(s.(lock := Some(t)), t, Compare(addr, if timeout < 0 then None else Some(timeout / 1000)))
    case DoCompare(t, matches, alloc) =>
      if !matches then At(s.(log := s.log + [NotWaited(t, pc.addr, 1)]), t, Unlock)
      else if alloc.None? then At(s.(log := s.log + [NotWaited(t, pc.addr, -1)]), t, Unlock)
      else At(s.(status := s.status[alloc.value := Waiting]), t, Acquire(pc.addr, alloc.value, pc.left))
    case DoAcquire(t, alloc) =>
      if pc.addr in s.waitMap then At(s, t, Insert(Wait(pc.addr, s.waitMap[pc.addr], pc.node, pc.left)))
      else if alloc.None? then
        At(s.(status := s.status - {pc.node}, log := s.log + [NotWaited(t, pc.addr, -1)]), t, Unlock)
      else
        At(s.(waitMap := s.waitMap[pc.addr := alloc.value], lists := s.lists[alloc.value := []]),
           t, Insert(Wait(pc.addr, alloc.value, pc.node, pc.left)))
    case DoInsert(t) =>
      At(s.(lists := s.lists[pc.w.info := [pc.w.node] + s.lists[pc.w.info]],
            log := s.log + [Enqueued(t, pc.w.addr, pc.w.node)]),
         t, ToSleep(pc.w))
    case Sleep(t) => At(s.(lock := None), t, Asleep(pc.w))
    case Wake(t) => At(s.(lock := Some(t)), t, Test(pc.w))
    case DoTest(t, terminated) =>
      if s.status[pc.w.node].Notified? || TimedOut(pc.w.left) || terminated then At(s, t, Remove(pc.w))
      else
        At(s, t, ToSleep(pc.w.(left := match pc.w.left
                                       case None => None
                                       case Some(left) => Some(left - TimeoutWait(left)))))
    case DoRemove(t) =>
      At(s.(lists := s.lists[pc.w.info := Without(s.lists[pc.w.info], pc.w.node)],
            status := s.status - {pc.w.node},
            log := s.log + [Left(t, pc.w.addr, pc.w.node, if s.status[pc.w.node].Waiting? then 2 else 0)]),
         t, Release(pc.w.addr, pc.w.info))
    case DoRelease(t) =>
      if |s.lists[pc.info]| > 0 then At(s, t, Unlock)
      else At(s.(waitMap := s.waitMap - {pc.addr}, lists := s.lists - {pc.info}), t, Unlock)
    case EnterNotify(t, addr, count) => At(s.(lock := Some(t)), t, Notify(addr, count))
    case DoNotify(t) =>
      if pc.addr !in s.waitMap then At(s, t, Unlock)
      else
        var nodes := ToMark(s.lists[s.waitMap[pc.addr]], pc.count);
        At(s.(status := Mark(s.status, nodes), log := s.log + [Marked(pc.addr, nodes)]), t, Unlock)
    case DoUnlock(t) => At(s.(lock := None), t, Out)
  }

  const INIT := State(None, map[], map[], map[], map[], [])

  predicate ValidRun(s: State, run: seq<Action>)
    decreases |run|
  {
    run == [] || (Enabled(s, run[0]) && ValidRun(Apply(s, run[0]), run[1..]))
  }

  function After(s: State, run: seq<Action>): State
    requires ValidRun(s, run)
    decreases |run|
  {
    if run == [] then s else After(Apply(s, run[0]), run[1..])
  }

  // ----- The invariant -----

  ghost predicate LockInv(s: State) {
    forall t: nat :: HoldsLock(PcOf(s, t)) <==> s.lock == Some(t)
  }

  /** Live nodes are owned, each by one thread. */
  ghost predicate OwnerInv(s: State) {
    && (forall t: nat :: OwnsNode(PcOf(s, t)) ==> NodeOf(PcOf(s, t)) in s.status)
    && (forall t: nat, u: nat :: OwnsNode(PcOf(s, t)) && OwnsNode(PcOf(s, u)) && t != u ==>
          NodeOf(PcOf(s, t)) != NodeOf(PcOf(s, u)))
  }

  /** The map is one-to-one onto the live infos, and a thread that still uses an info
      finds it live and under its own address. */
  ghost predicate MapInv(s: State) {
    MapShape(s) && MapUsers(s)
  }

  ghost predicate MapShape(s: State) {
    && (forall a: nat :: a in s.waitMap ==> s.waitMap[a] in s.lists)
    && (forall a: nat, b: nat :: a in s.waitMap && b in s.waitMap && a != b ==> s.waitMap[a] != s.waitMap[b])
  }

  ghost predicate MapUsers(s: State) {
    && (forall t: nat :: InList(PcOf(s, t)) || PcOf(s, t).Insert? ==>
          PcOf(s, t).w.addr in s.waitMap && s.waitMap[PcOf(s, t).w.addr] == PcOf(s, t).w.info)
    && (forall t: nat :: PcOf(s, t).Release? ==>
          PcOf(s, t).addr in s.waitMap && s.waitMap[PcOf(s, t).addr] == PcOf(s, t).info)
  }

  ghost predicate NoDup(list: seq<nat>) {
    forall i, j :: 0 <= i < j < |list| ==> list[i] != list[j]
  }

  /** Thread `t` is waiting with node `n` in the list of info `i`. */
  predicate WaitsIn(s: State, t: nat, i: nat, n: nat) {
    InList(PcOf(s, t)) && PcOf(s, t).w.info == i && PcOf(s, t).w.node == n
  }

  /** A list holds exactly the nodes of the threads waiting in it, without repetition. */
  ghost predicate ListInv(s: State) {
    && (forall i: nat :: i in s.lists ==> NoDup(s.lists[i]))
    && (forall t: nat :: InList(PcOf(s, t)) ==>
          PcOf(s, t).w.info in s.lists && PcOf(s, t).w.node in s.lists[PcOf(s, t).w.info])
    && (forall i: nat, n: nat :: i in s.lists && n in s.lists[i] ==> exists t: nat :: WaitsIn(s, t, i, n))
  }

  /** Thread `t` is in the middle of adding to or releasing info `i`. */
  predicate Busy(s: State, t: nat, i: nat) {
    || (PcOf(s, t).Insert? && PcOf(s, t).w.info == i)
    || (PcOf(s, t).Release? && PcOf(s, t).info == i)
  }

  /** A live info's list is empty only while some thread is in the middle of it, and every
      live info is in the map. */
  ghost predicate EmptyInv(s: State) {
    EmptyBusy(s) && AllMapped(s)
  }

  ghost predicate EmptyBusy(s: State) {
    forall i: nat :: i in s.lists && s.lists[i] == [] ==> exists t: nat :: Busy(s, t, i)
  }

  ghost predicate AllMapped(s: State) {
    forall i: nat :: i in s.lists ==> i in s.waitMap.Values
  }

  /** Some notify on `addr` has marked node `n` since it was last put in a list. */
  predicate MarkedSince(log: seq<Event>, addr: nat, n: nat) {
    if log == [] then false
    else
      match log[|log| - 1]
      case Marked(b, nodes) => (b == addr && n in nodes) || MarkedSince(log[..|log| - 1], addr, n)
      case Enqueued(_, _, m) => m != n && MarkedSince(log[..|log| - 1], addr, n)
      case _ => MarkedSince(log[..|log| - 1], addr, n)
  }

  /** A wait that enqueued returned 0 exactly if a notify on its address had marked its
      node by then, and otherwise 2. */
  ghost predicate CodesInv(log: seq<Event>) {
    forall j :: 0 <= j < |log| && log[j].Left? ==>
      log[j].code == if MarkedSince(log[..j], log[j].addr, log[j].node) then 0 else 2
  }

  /** How many waits have returned 0. */
  function Zeros(log: seq<Event>): nat {
    if log == [] then 0
    else Zeros(log[..|log| - 1]) + (if log[|log| - 1].Left? && log[|log| - 1].code == 0 then 1 else 0)
  }

  /** The sum of the results of all notifies. */
  function Marks(log: seq<Event>): nat {
    if log == [] then 0
    else Marks(log[..|log| - 1]) + (if log[|log| - 1].Marked? then |log[|log| - 1].nodes| else 0)
  }

  function NotifiedNodes(status: map<nat, Status>): set<nat> {
    set n | n in status && status[n].Notified?
  }

  ghost predicate MarkInv(s: State) {
    && (forall t: nat :: InList(PcOf(s, t)) && PcOf(s, t).w.node in s.status ==>
          (s.status[PcOf(s, t).w.node].Notified? <==> MarkedSince(s.log, PcOf(s, t).w.addr, PcOf(s, t).w.node)))
    && (forall t: nat :: (PcOf(s, t).Acquire? || PcOf(s, t).Insert?) && NodeOf(PcOf(s, t)) in s.status ==>
          s.status[NodeOf(PcOf(s, t))].Waiting?)
    && CodesInv(s.log)
    && Counted(s.log, s.status)
  }

  /** Zero returns and marked nodes still there do not exceed the notify results. */
  predicate Counted(log: seq<Event>, status: map<nat, Status>) {
    Zeros(log) + |NotifiedNodes(status)| <= Marks(log)
  }

  ghost predicate Inv(s: State) {
    LockInv(s) && OwnerInv(s) && MapInv(s) && ListInv(s) && EmptyInv(s) && MarkInv(s)
  }

  lemma {:induction false} WithoutIs(list: seq<nat>, n: nat)
    requires NoDup(list)
    ensures NoDup(Without(list, n))
    ensures forall m: nat :: m in Without(list, n) <==> m in list && m != n
  {
    if list != [] {
      var rest := list[1..];
      assert forall m: nat :: m in list <==> m == list[0] || m in rest;
      if list[0] == n {
        assert n !in rest;
      } else {
        WithoutIs(rest, n);
        assert list[0] !in rest;
      }
    }
  }

  lemma Frame(s: State, a: Action)
    requires Enabled(s, a)
    ensures forall u: nat :: u != a.t ==> PcOf(Apply(s, a), u) == PcOf(s, u)
  {
  }

  /** Only the lock holder can be between two locked steps. */
  lemma OneHolder(s: State, a: Action)
    requires LockInv(s) && Enabled(s, a)
    ensures forall u: nat :: u != a.t ==> !HoldsLock(PcOf(s, u))
  {
    assert s.lock.None? || s.lock == Some(a.t);
  }

  lemma KeepsLock(s: State, a: Action)
    requires Inv(s) && Enabled(s, a)
    ensures LockInv(Apply(s, a))
  {
    Frame(s, a);
    OneHolder(s, a);
  }

  /** A step allocates a node for its thread, frees the thread's node, or does neither. */
  lemma NodesAfter(s: State, a: Action)
    requires Enabled(s, a)
    ensures var r := Apply(s, a);
            && (forall n: nat :: n in r.status <==>
                 || (n in s.status && !(OwnsNode(PcOf(s, a.t)) && !OwnsNode(PcOf(r, a.t)) && n == NodeOf(PcOf(s, a.t))))
                 || (a.DoCompare? && PcOf(r, a.t).Acquire? && n == PcOf(r, a.t).node))
            && (OwnsNode(PcOf(r, a.t)) && OwnsNode(PcOf(s, a.t)) ==> NodeOf(PcOf(r, a.t)) == NodeOf(PcOf(s, a.t)))
  {
  }

  lemma KeepsOwner(s: State, a: Action)
    requires LockInv(s) && OwnerInv(s) && Enabled(s, a)
    ensures OwnerInv(Apply(s, a))
  {
    Frame(s, a);
    OneHolder(s, a);
    NodesAfter(s, a);
  }

  lemma KeepsMapShape(s: State, a: Action)
    requires LockInv(s) && MapInv(s) && ListInv(s) && Enabled(s, a)
    ensures MapShape(Apply(s, a))
  {
    Frame(s, a);
    OneHolder(s, a);
  }

  lemma KeepsMapUsers(s: State, a: Action)
    requires LockInv(s) && MapInv(s) && ListInv(s) && Enabled(s, a)
    ensures MapUsers(Apply(s, a))
  {
    Frame(s, a);
    OneHolder(s, a);
    var r := Apply(s, a);
    OwnEntryKept(s, a);
    forall t: nat | t != a.t && InList(PcOf(s, t))
      ensures PcOf(s, t).w.addr in r.waitMap && r.waitMap[PcOf(s, t).w.addr] == PcOf(s, t).w.info
    {
      MapEntryKept(s, a, t);
    }
  }

  /** The thread that takes the step finds the address it uses mapped. */
  lemma OwnEntryKept(s: State, a: Action)
    requires MapInv(s) && ListInv(s) && Enabled(s, a)
    ensures var r, pc := Apply(s, a), PcOf(Apply(s, a), a.t);
            && (InList(pc) || pc.Insert? ==> pc.w.addr in r.waitMap && r.waitMap[pc.w.addr] == pc.w.info)
            && (pc.Release? ==> pc.addr in r.waitMap && r.waitMap[pc.addr] == pc.info)
  {
  }

  /** An address with another thread in its list stays mapped as it is. */
  lemma MapEntryKept(s: State, a: Action, t: nat)
    requires MapInv(s) && ListInv(s) && Enabled(s, a) && InList(PcOf(s, t)) && t != a.t
    ensures var r, w := Apply(s, a), PcOf(s, t).w;
            w.addr in r.waitMap && r.waitMap[w.addr] == w.info
  {
    var w := PcOf(s, t).w;
    assert s.waitMap[w.addr] == w.info && w.node in s.lists[w.info];
  }

  /** How each step changes the lists. */
  lemma ListsAfter(s: State, a: Action)
    requires LockInv(s) && OwnerInv(s) && ListInv(s) && Enabled(s, a)
    ensures forall i: nat :: i in Apply(s, a).lists ==> NoDup(Apply(s, a).lists[i])
    ensures var r, pc := Apply(s, a), PcOf(s, a.t);
            && (forall i: nat, n: nat :: i in r.lists && n in r.lists[i] ==>
                 || (i in s.lists && n in s.lists[i] && !(a.DoRemove? && n == pc.w.node && i == pc.w.info))
                 || (a.DoInsert? && i == pc.w.info && n == pc.w.node))
            && (forall i: nat, n: nat :: i in s.lists && n in s.lists[i] ==>
                 || (a.DoRemove? && n == pc.w.node)
                 || (i in r.lists && n in r.lists[i]))
            && (a.DoInsert? ==> pc.w.info in r.lists && pc.w.node in r.lists[pc.w.info])
  {
    var pc := PcOf(s, a.t);
    if a.DoInsert? {
      assert pc.w.node !in s.lists[pc.w.info];
    } else if a.DoRemove? {
      WithoutIs(s.lists[pc.w.info], pc.w.node);
    }
  }

  lemma KeepsPlaces(s: State, a: Action)
    requires OwnerInv(s) && ListInv(s) && LockInv(s) && Enabled(s, a)
    ensures var r := Apply(s, a);
            forall t: nat :: InList(PcOf(r, t)) ==>
              PcOf(r, t).w.info in r.lists && PcOf(r, t).w.node in r.lists[PcOf(r, t).w.info]
  {
    Frame(s, a);
    ListsAfter(s, a);
    var r, pc := Apply(s, a), PcOf(s, a.t);
    forall t: nat | InList(PcOf(r, t))
      ensures PcOf(r, t).w.info in r.lists && PcOf(r, t).w.node in r.lists[PcOf(r, t).w.info]
    {
      if t != a.t {
        assert OwnsNode(pc) ==> NodeOf(pc) != NodeOf(PcOf(s, t));
      }
    }
  }

  lemma KeepsWaiters(s: State, a: Action)
    requires LockInv(s) && OwnerInv(s) && ListInv(s) && Enabled(s, a)
    ensures var r := Apply(s, a);
            forall i: nat, n: nat :: i in r.lists && n in r.lists[i] ==> exists t: nat :: WaitsIn(r, t, i, n)
  {
    Frame(s, a);
    ListsAfter(s, a);
    var r, pc := Apply(s, a), PcOf(s, a.t);
    forall i: nat, n: nat | i in r.lists && n in r.lists[i]
      ensures exists t: nat :: WaitsIn(r, t, i, n)
    {
      if a.DoInsert? && i == pc.w.info && n == pc.w.node {
        assert WaitsIn(r, a.t, i, n);
      } else {
        var t: nat :| WaitsIn(s, t, i, n);
        assert WaitsIn(r, t, i, n);
      }
    }
  }

  lemma KeepsList(s: State, a: Action)
    requires LockInv(s) && OwnerInv(s) && ListInv(s) && Enabled(s, a)
    ensures ListInv(Apply(s, a))
  {
    ListsAfter(s, a);
    KeepsPlaces(s, a);
    KeepsWaiters(s, a);
  }

  lemma KeepsBusy(s: State, a: Action)
    requires LockInv(s) && MapInv(s) && EmptyInv(s) && Enabled(s, a)
    ensures EmptyBusy(Apply(s, a))
  {
    Frame(s, a);
    OneHolder(s, a);
    var r := Apply(s, a);
    forall i: nat | i in r.lists && r.lists[i] == []
      ensures exists t: nat :: Busy(r, t, i)
    {
      if !(i in s.lists && s.lists[i] == []) {
        assert Busy(r, a.t, i);
      }
    }
  }

  lemma KeepsMapped(s: State, a: Action)
    requires LockInv(s) && MapInv(s) && EmptyInv(s) && Enabled(s, a)
    ensures AllMapped(Apply(s, a))
  {
    Frame(s, a);
    OneHolder(s, a);
    var r, pc := Apply(s, a), PcOf(s, a.t);
    forall i: nat | i in r.lists
      ensures i in r.waitMap.Values
    {
      if i in s.lists {
        var b :| b in s.waitMap && s.waitMap[b] == i;
        assert b in r.waitMap && r.waitMap[b] == i;
      } else {
        assert r.waitMap[pc.addr] == i;
      }
    }
  }

  lemma MarkedAppend(log: seq<Event>, e: Event, addr: nat, n: nat)
    ensures MarkedSince(log + [e], addr, n) <==>
            (e.Marked? && e.addr == addr && n in e.nodes)
                || (MarkedSince(log, addr, n) && !(e.Enqueued? && e.node == n))
  {
    assert (log + [e])[..|log|] == log;
  }

  /** The nodes of a list belong to the waiters on its address and to no other waiter. */
  lemma ListOwners(s: State, addr: nat, t: nat)
    requires OwnerInv(s) && MapInv(s) && ListInv(s) && addr in s.waitMap && InList(PcOf(s, t))
    ensures PcOf(s, t).w.node in s.lists[s.waitMap[addr]] <==> PcOf(s, t).w.addr == addr
  {
    var w, i := PcOf(s, t).w, s.waitMap[addr];
    if w.node in s.lists[i] {
      var u: nat :| WaitsIn(s, u, i, w.node);
      assert NodeOf(PcOf(s, u)) == NodeOf(PcOf(s, t));
    }
  }

  /** A thread in a list after a step was, or is just being, in it with the same node. */
  lemma WasWaiting(s: State, a: Action, t: nat)
    requires Enabled(s, a) && InList(PcOf(Apply(s, a), t))
    ensures (InList(PcOf(s, t)) || PcOf(s, t).Insert?) && PcOf(s, t).w.node == PcOf(Apply(s, a), t).w.node
    ensures PcOf(s, t).w.addr == PcOf(Apply(s, a), t).w.addr
    ensures PcOf(s, t).Insert? ==> a == DoInsert(t)
  {
    Frame(s, a);
  }

  lemma NotifyMarkOf(s: State, a: Action, t: nat)
    requires OwnerInv(s) && MapInv(s) && ListInv(s) && MarkInv(s) && Enabled(s, a) && a.DoNotify?
    requires InList(PcOf(s, t)) && PcOf(s, t).w.node in s.status
    ensures var r := Apply(s, a); var w := PcOf(s, t).w;
            w.node in r.status && (r.status[w.node].Notified? <==> MarkedSince(r.log, w.addr, w.node))
  {
    var r, w := Apply(s, a), PcOf(s, t).w;
    if r.log != s.log {
      MarkedAppend(s.log, r.log[|s.log|], w.addr, w.node);
      ListOwners(s, PcOf(s, a.t).addr, t);
    }
  }

  lemma InsertMarkOf(s: State, t: nat)
    requires OwnerInv(s) && MarkInv(s) && Enabled(s, DoInsert(t))
    ensures var r := Apply(s, DoInsert(t)); var w := PcOf(s, t).w;
            w.node in r.status && r.status[w.node].Waiting? && !MarkedSince(r.log, w.addr, w.node)
  {
    var w := PcOf(s, t).w;
    assert OwnsNode(PcOf(s, t)) && NodeOf(PcOf(s, t)) == w.node;
    MarkedAppend(s.log, Enqueued(t, w.addr, w.node), w.addr, w.node);
  }

  lemma OtherMarkOf(s: State, a: Action, t: nat, w: Wait)
    requires LockInv(s) && OwnerInv(s) && MarkInv(s) && Enabled(s, a) && !a.DoNotify? && InList(PcOf(s, t))
    requires PcOf(s, t).w == w && w.node in Apply(s, a).status
    ensures var r := Apply(s, a);
            r.status[w.node].Notified? <==> MarkedSince(r.log, w.addr, w.node)
  {
    var r := Apply(s, a);
    assert NodeOf(PcOf(s, t)) == w.node;
    SameStatus(s, a, w.node);
    if r.log != s.log {
      MarkedAppend(s.log, r.log[|s.log|], w.addr, w.node);
    }
  }

  /** Only a notify changes the status of a node that stays. */
  lemma SameStatus(s: State, a: Action, n: nat)
    requires Enabled(s, a) && !a.DoNotify? && n in s.status && n in Apply(s, a).status
    ensures Apply(s, a).status[n] == s.status[n]
  {
  }

  lemma KeepsMarkOf(s: State, a: Action, t: nat)
    requires LockInv(s) && OwnerInv(s) && MapInv(s) && ListInv(s) && MarkInv(s) && Enabled(s, a)
    requires InList(PcOf(Apply(s, a), t)) && PcOf(Apply(s, a), t).w.node in Apply(s, a).status
    ensures var r := Apply(s, a); var w := PcOf(r, t).w;
            r.status[w.node].Notified? <==> MarkedSince(r.log, w.addr, w.node)
  {
    WasWaiting(s, a, t);
    if a.DoNotify? {
      NotifyMarkOf(s, a, t);
    } else if a == DoInsert(t) {
      InsertMarkOf(s, t);
    } else {
      OtherMarkOf(s, a, t, PcOf(s, t).w);
    }
  }

  lemma KeepsMarks(s: State, a: Action)
    requires LockInv(s) && OwnerInv(s) && MapInv(s) && ListInv(s) && MarkInv(s) && Enabled(s, a)
    ensures var r := Apply(s, a);
            forall t: nat :: InList(PcOf(r, t)) && PcOf(r, t).w.node in r.status ==>
              (r.status[PcOf(r, t).w.node].Notified? <==> MarkedSince(r.log, PcOf(r, t).w.addr, PcOf(r, t).w.node))
  {
    var r := Apply(s, a);
    forall t: nat | InList(PcOf(r, t)) && PcOf(r, t).w.node in r.status
      ensures r.status[PcOf(r, t).w.node].Notified? <==> MarkedSince(r.log, PcOf(r, t).w.addr, PcOf(r, t).w.node)
    {
      KeepsMarkOf(s, a, t);
    }
  }

  function Elems(nodes: seq<nat>): set<nat> {
    set n | n in nodes
  }

  lemma {:induction false} SeqAsSet(nodes: seq<nat>)
    ensures |Elems(nodes)| <= |nodes|
  {
    if nodes != [] {
      SeqAsSet(nodes[1..]);
      assert Elems(nodes) == {nodes[0]} + Elems(nodes[1..]);
    }
  }

  lemma CountMark(log: seq<Event>, status: map<nat, Status>, e: Event)
    requires Counted(log, status) && e.Marked?
    ensures Counted(log + [e], Mark(status, e.nodes))
  {
    var before, now := NotifiedNodes(status), NotifiedNodes(Mark(status, e.nodes));
    assert (log + [e])[..|log|] == log;
    SeqAsSet(e.nodes);
    Within(now, before + Elems(e.nodes));
    assert |before + Elems(e.nodes)| <= |before| + |Elems(e.nodes)|;
  }

  lemma CountLeave(log: seq<Event>, status: map<nat, Status>, e: Event, n: nat)
    requires Counted(log, status) && n in status && e.Left? && (e.code == 0 <==> status[n].Notified?)
    ensures Counted(log + [e], status - {n})
  {
    assert (log + [e])[..|log|] == log;
    assert NotifiedNodes(status - {n}) == NotifiedNodes(status) - {n};
  }

  lemma CountSame(log: seq<Event>, status: map<nat, Status>, e: Event)
    requires Counted(log, status) && (e.Enqueued? || e.NotWaited?)
    ensures Counted(log + [e], status)
  {
    assert (log + [e])[..|log|] == log;
  }

  lemma CountFewer(log: seq<Event>, status: map<nat, Status>, now: map<nat, Status>)
    requires Counted(log, status) && forall n :: n in now && now[n].Notified? ==> n in status && status[n].Notified?
    ensures Counted(log, now)
  {
    Within(NotifiedNodes(now), NotifiedNodes(status));
  }

  lemma KeepsCount(s: State, a: Action)
    requires MarkInv(s) && Enabled(s, a)
    ensures Counted(Apply(s, a).log, Apply(s, a).status)
  {
    var r, pc := Apply(s, a), PcOf(s, a.t);
    match a
    case DoCompare(_, _, _) =>
      CountFewer(s.log, s.status, r.status);
      if r.log != s.log {
        CountSame(s.log, r.status, r.log[|s.log|]);
      }
    case DoAcquire(_, _) =>
      CountFewer(s.log, s.status, r.status);
      if r.log != s.log {
        CountSame(s.log, r.status, r.log[|s.log|]);
      }
    case DoInsert(t) => CountSame(s.log, s.status, Enqueued(t, pc.w.addr, pc.w.node));
    case DoRemove(t) =>
      CountLeave(s.log, s.status, Left(t, pc.w.addr, pc.w.node, if s.status[pc.w.node].Waiting? then 2 else 0),
          pc.w.node);
    case DoNotify(_) =>
      if pc.addr in s.waitMap {
        CountMark(s.log, s.status, Marked(pc.addr, ToMark(s.lists[s.waitMap[pc.addr]], pc.count)));
      }
    case _ =>
  }

  lemma {:induction false} Within(a: set<nat>, b: set<nat>)
    requires a <= b
    ensures |a| <= |b|
  {
    assert b == a + (b - a);
  }

  lemma CodesMore(log: seq<Event>, e: Event)
    requires CodesInv(log) && (e.Left? ==> e.code == if MarkedSince(log, e.addr, e.node) then 0 else 2)
    ensures CodesInv(log + [e])
  {
    var more := log + [e];
    assert more[..|log|] == log;
    assert forall j :: 0 <= j <= |log| ==> more[..j] == log[..j];
  }

  lemma KeepsCodes(s: State, a: Action)
    requires LockInv(s) && OwnerInv(s) && MarkInv(s) && Enabled(s, a)
    ensures CodesInv(Apply(s, a).log)
  {
    var r := Apply(s, a);
    if r.log != s.log {
      assert r.log == s.log + [r.log[|s.log|]];
      CodesMore(s.log, r.log[|s.log|]);
    }
  }

  lemma KeepsUnmarked(s: State, a: Action)
    requires LockInv(s) && OwnerInv(s) && MapInv(s) && ListInv(s) && MarkInv(s) && Enabled(s, a)
    ensures var r := Apply(s, a);
            forall t: nat :: (PcOf(r, t).Acquire? || PcOf(r, t).Insert?) && NodeOf(PcOf(r, t)) in r.status ==>
              r.status[NodeOf(PcOf(r, t))].Waiting?
  {
    Frame(s, a);
    OneHolder(s, a);
  }

  lemma KeepsMark(s: State, a: Action)
    requires LockInv(s) && OwnerInv(s) && MapInv(s) && ListInv(s) && MarkInv(s) && Enabled(s, a)
    ensures MarkInv(Apply(s, a))
  {
    KeepsMarks(s, a);
    KeepsUnmarked(s, a);
    KeepsCount(s, a);
    KeepsCodes(s, a);
  }

  lemma StepKeepsInv(s: State, a: Action)
    requires Inv(s) && Enabled(s, a)
    ensures Inv(Apply(s, a))
  {
    KeepsLock(s, a);
    KeepsOwner(s, a);
    KeepsMapShape(s, a);
    KeepsMapUsers(s, a);
    KeepsList(s, a);
    KeepsBusy(s, a);
    KeepsMapped(s, a);
    KeepsMark(s, a);
  }

  lemma {:induction false} RunKeepsInv(s: State, run: seq<Action>)
    requires Inv(s) && ValidRun(s, run)
    ensures Inv(After(s, run))
    decreases |run|
  {
    if run != [] {
      StepKeepsInv(s, run[0]);
      RunKeepsInv(Apply(s, run[0]), run[1..]);
    }
  }

  // ----- What holds in every reachable state -----

  /** Thread `t` has a node in the list of address `a`. */
  predicate WaitsAt(s: State, t: nat, a: nat) {
    InList(PcOf(s, t)) && PcOf(s, t).w.addr == a
  }

  /** `t` waits on `a` with node `n`, and no other thread has that node. */
  ghost predicate SoleOwner(s: State, t: nat, a: nat, n: nat) {
    WaitsAt(s, t, a) && PcOf(s, t).w.node == n
    && forall u: nat :: OwnsNode(PcOf(s, u)) && NodeOf(PcOf(s, u)) == n ==> u == t
  }

  /** The list of mapped address `a` is live, non-empty and without repetition, and each of
      its nodes belongs to exactly one thread, which waits on `a`. */
  ghost predicate ListOfWaiters(s: State, a: nat)
    requires a in s.waitMap
  {
    && s.waitMap[a] in s.lists && s.lists[s.waitMap[a]] != [] && NoDup(s.lists[s.waitMap[a]])
    && forall n: nat :: n in s.lists[s.waitMap[a]] ==> exists t: nat :: SoleOwner(s, t, a, n)
  }

  lemma FreeLockList(s: State, a: nat)
    requires Inv(s) && s.lock.None? && a in s.waitMap
    ensures ListOfWaiters(s, a)
  {
    var i := s.waitMap[a];
    assert forall t: nat :: !Busy(s, t, i);
    forall n: nat | n in s.lists[i]
      ensures exists t: nat :: SoleOwner(s, t, a, n)
    {
      var t: nat :| WaitsIn(s, t, i, n);
      assert SoleOwner(s, t, a, n);
    }
  }

  /** Whenever the lock is free, an address is in the map exactly if some thread waits on
      it; its list then holds the nodes of the threads waiting there, one each; and no info
      is live outside the map. */
  lemma LockFreeMap(run: seq<Action>)
    requires ValidRun(INIT, run) && After(INIT, run).lock.None?
    ensures var s := After(INIT, run);
            && (forall a: nat :: a in s.waitMap <==> exists t: nat :: WaitsAt(s, t, a))
            && (forall a: nat :: a in s.waitMap ==> ListOfWaiters(s, a))
            && s.lists.Keys == s.waitMap.Values
  {
    RunKeepsInv(INIT, run);
    FreeLock(After(INIT, run));
  }

  lemma FreeLockWaiter(s: State, a: nat)
    requires Inv(s) && s.lock.None? && a in s.waitMap
    ensures exists t: nat :: WaitsAt(s, t, a)
  {
    FreeLockList(s, a);
    var n := s.lists[s.waitMap[a]][0];
    assert n in s.lists[s.waitMap[a]];
    var t: nat :| SoleOwner(s, t, a, n);
    assert WaitsAt(s, t, a);
  }

  lemma WaiterMapped(s: State)
    requires MapInv(s)
    ensures forall t: nat, a: nat :: WaitsAt(s, t, a) ==> a in s.waitMap
  {
  }

  lemma LiveMapped(s: State)
    requires MapInv(s) && AllMapped(s)
    ensures s.lists.Keys == s.waitMap.Values
  {
  }

  lemma FreeLock(s: State)
    requires Inv(s) && s.lock.None?
    ensures forall a: nat :: a in s.waitMap <==> exists t: nat :: WaitsAt(s, t, a)
    ensures forall a: nat :: a in s.waitMap ==> ListOfWaiters(s, a)
    ensures s.lists.Keys == s.waitMap.Values
  {
    WaiterMapped(s);
    LiveMapped(s);
    forall a: nat | a in s.waitMap
      ensures ListOfWaiters(s, a) && exists t: nat :: WaitsAt(s, t, a)
    {
      FreeLockList(s, a);
      FreeLockWaiter(s, a);
    }
  }

  /** Each thread's next step finds the info and node it uses live, and a node about to be
      removed is in its list. */
  predicate MemoryLive(s: State, t: nat) {
    var pc := PcOf(s, t);
    && (pc.Insert? ==> Enabled(s, DoInsert(t)))
    && (pc.Test? ==> Enabled(s, DoTest(t, false)))
    && (pc.Remove? ==> Enabled(s, DoRemove(t)) && pc.w.node in s.lists[pc.w.info])
    && (pc.Release? ==> Enabled(s, DoRelease(t)))
    && (pc.Notify? ==> Enabled(s, DoNotify(t)))
  }

  lemma InvKeepsMemoryLive(s: State, t: nat)
    requires MapInv(s) && OwnerInv(s) && ListInv(s)
    ensures MemoryLive(s, t)
  {
  }

  /** No thread is ever left with freed memory, so the node-exists assertion holds. */
  lemma NothingFreedEarly(run: seq<Action>, t: nat)
    requires ValidRun(INIT, run)
    ensures MemoryLive(After(INIT, run), t)
  {
    RunKeepsInv(INIT, run);
    InvKeepsMemoryLive(After(INIT, run), t);
  }

  /** Over every run, a wait that enqueued returns 0 exactly if some notify on the same
      address marked its node while it was enqueued, and 2 otherwise; and no more waits
      return 0 than the notifies reported. */
  lemma ReturnCodes(run: seq<Action>)
    requires ValidRun(INIT, run)
    ensures CodesInv(After(INIT, run).log)
    ensures Zeros(After(INIT, run).log) <= Marks(After(INIT, run).log)
  {
    RunKeepsInv(INIT, run);
  }

  lemma NotifyMarksIn(s: State, t: nat, u: nat)
    requires OwnerInv(s) && MapInv(s) && ListInv(s) && PcOf(s, t).Notify? && InList(PcOf(s, u))
    ensures var pc, w := PcOf(s, t), PcOf(s, u).w;
            && Enabled(s, DoNotify(t))
            && var r := Apply(s, DoNotify(t));
               && w.node in r.status
               && (pc.addr !in s.waitMap ==> r.log == s.log)
               && (pc.addr in s.waitMap ==>
                    && var list := s.lists[s.waitMap[pc.addr]];
                       && r.log == s.log + [Marked(pc.addr, list[..Min(pc.count, |list|)])]
                       && (r.status[w.node].Notified? <==>
                            s.status[w.node].Notified? || w.node in list[..Min(pc.count, |list|)])
                       && (w.addr == pc.addr ==> w.node in list))
               && (w.addr != pc.addr ==> r.status[w.node] == s.status[w.node])
  {
    InvKeepsMemoryLive(s, t);
    if PcOf(s, t).addr in s.waitMap {
      ListOwners(s, PcOf(s, t).addr, u);
    }
  }

  /** A notify reports and marks the `count` newest waiters on its address, so all of them
      if there are no more than that; nobody waiting elsewhere is marked. */
  lemma NotifyMarks(run: seq<Action>, t: nat, u: nat)
    requires ValidRun(INIT, run) && PcOf(After(INIT, run), t).Notify? && InList(PcOf(After(INIT, run), u))
    ensures var s := After(INIT, run); var pc, w := PcOf(s, t), PcOf(s, u).w;
            && Enabled(s, DoNotify(t))
            && var r := Apply(s, DoNotify(t));
               && w.node in r.status
               && (pc.addr !in s.waitMap ==> r.log == s.log)
               && (pc.addr in s.waitMap ==>
                    && var list := s.lists[s.waitMap[pc.addr]];
                       && r.log == s.log + [Marked(pc.addr, list[..Min(pc.count, |list|)])]
                       && (r.status[w.node].Notified? <==>
                            s.status[w.node].Notified? || w.node in list[..Min(pc.count, |list|)])
                       && (w.addr == pc.addr ==> w.node in list))
               && (w.addr != pc.addr ==> r.status[w.node] == s.status[w.node])
  {
    RunKeepsInv(INIT, run);
    NotifyMarksIn(After(INIT, run), t, u);
  }

  // ----- The loops -----

  /** `is_wait_node_exists`. */
  method IsWaitNodeExists(list: seq<nat>, node: nat) returns (found: bool)
    ensures found <==> node in list
  {
    var curr := 0;
    while curr < |list|
      invariant 0 <= curr <= |list| && node !in list[..curr]
    {
      if list[curr] == node {
        return true;
      }
      curr := curr + 1;
    }
    return false;
  }

  /** `notify_wait_list`: marks nodes one by one from the head of the list. */
  method NotifyWaitList(list: seq<nat>, count: nat, status0: map<nat, Status>)
    returns (notifyCount: nat, status: map<nat, Status>)
    requires forall n :: n in list ==> n in status0
    ensures notifyCount == |ToMark(list, count)| && status == Mark(status0, ToMark(list, count))
  {
    notifyCount := count;
    status := status0;
    if count > |list| {
      notifyCount := |list|;
    }
    if list == [] {
      return 0, status0;
    }
    for i := 0 to notifyCount
      invariant status == Mark(status0, list[..i])
    {
      assert list[..i + 1] == list[..i] + [list[i]];
      status := status[list[i] := Notified];
    }
  }

  function CeilDiv(a: nat, b: nat): nat
    requires b > 0
  {
    (a + b - 1) / b
  }

  function Max(a: nat, b: nat): nat {
    if a >= b then a else b
  }

  /** The wait loop for a non-negative timeout in nanoseconds. `interrupted(i)` says that
      after round `i` the node was found notified or the thread terminated. The loop makes
      at most one round per started second, at least one, and if nothing interrupts it the
      rounds add up to the timeout in whole microseconds. */
  method TimedWait(timeout: nat, interrupted: nat -> bool) returns (rounds: nat, waited: nat)
    ensures 1 <= rounds <= Max(1, CeilDiv(timeout, 1_000_000_000))
    ensures waited <= timeout / 1000
    ensures (forall i :: 0 <= i < rounds ==> !interrupted(i)) ==>
              waited == timeout / 1000 && rounds == Max(1, CeilDiv(timeout / 1000, ONE_SECOND))
    ensures forall i :: 0 <= i < rounds - 1 ==> !interrupted(i)
  {
    var timeoutLeft := timeout / 1000;
    rounds, waited := 0, 0;
    while true
      invariant waited + timeoutLeft == timeout / 1000
      invariant waited == rounds * ONE_SECOND
      invariant rounds > 0 ==> timeoutLeft > 0
      invariant forall i :: 0 <= i < rounds ==> !interrupted(i)
      decreases timeoutLeft
    {
      var timeoutWait := if timeoutLeft < ONE_SECOND then timeoutLeft else ONE_SECOND;
      rounds, waited := rounds + 1, waited + timeoutWait;
      if interrupted(rounds - 1) || timeoutLeft <= timeoutWait {
        break;
      }
      timeoutLeft := timeoutLeft - timeoutWait;
    }
  }
}
