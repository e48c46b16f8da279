/** The master service: sockets are accepted into one bounded queue, whose connections are
    served one call at a time, round robin. */
module Master {
  import opened Bits
  import opened Smtp
  import opened ConnQueue

  datatype Accepted = Content(socket: int) | Unblock | AcceptError

  /** What the outside supplies to one `process_connection`: the input of `smtp_handler`, or
      the result of one of the handlers that leave the connection as it is. */
  datatype Turn = Turn(input: Input, other: Result)

  datatype Op = Accept(kind: Kind, result: Accepted) | Process(turn: Turn)

  /** `accepted` and `closed` list sockets, `served` the connections as they were taken off
      the queue, all in the order of the calls. */
  datatype State = State(queue: seq<Connection>, accepted: seq<int>, closed: seq<int>, served: seq<Connection>)

  function Dispatch(c: Connection, t: Turn): (Connection, Result)
    requires ConnectionOk(c) && InputOk(t.input)
  {
    if c.kind.SMTP? then Handle(c, t.input) else (c, t.other)
  }

  /** The connection as it goes back to the end of the queue, if it does. */
  function Back(d: Connection, r: Result): seq<Connection> {
    match r
    case Continue => [d]
    case Reset => [ResetConnection(d)]
    case Done => []
    case Error => []
  }

  /** What is kept of the connection after its turn. */
  function Kept(c: Connection, t: Turn): seq<Connection>
    requires ConnectionOk(c) && InputOk(t.input)
  {
    Back(Dispatch(c, t).0, Dispatch(c, t).1)
  }

  predicate OpOk(op: Op) {
    op.Process? ==> InputOk(op.turn.input)
  }

  predicate OpsOk(ops: seq<Op>) {
    forall i :: 0 <= i < |ops| ==> OpOk(ops[i])
  }

  predicate Inv(s: State) {
    && |s.queue| <= CAPACITY
    && (forall i :: 0 <= i < |s.queue| ==> ConnectionOk(s.queue[i]))
    && multiset(s.accepted) == multiset(Sockets(s.queue)) + multiset(s.closed)
  }

  function Sockets(q: seq<Connection>): seq<int> {
    seq(|q|, i requires 0 <= i < |q| => q[i].socket)
  }

  /** A socket arrives: queued, or closed at once when the queue is full. */
  function Arrived(s: State, kind: Kind, socket: int): State {
    if |s.queue| == CAPACITY then s.(accepted := s.accepted + [socket], closed := s.closed + [socket])
    else s.(accepted := s.accepted + [socket], queue := s.queue + [InitConnection(kind, socket)])
  }

  /** The first connection has been served and `kept` of it goes back to the end. */
  function Turned(s: State, kept: seq<Connection>): State
    requires s.queue != []
  {
    var c := s.queue[0];
    s.(queue := s.queue[1..] + kept,
       served := s.served + [c],
       closed := if kept == [] then s.closed + [c.socket] else s.closed)
  }

  function Do(s: State, op: Op): State
    requires Inv(s) && OpOk(op)
  {
    match op
    case Accept(kind, Content(socket)) => Arrived(s, kind, socket)
    case Accept(_, _) => s
    case Process(t) => if s.queue == [] then s else Turned(s, Kept(s.queue[0], t))
  }

  // ----- Invariant over all runs -----

  /** At most the one connection goes back, in order and with its socket. */
  predicate GoesBack(c: Connection, kept: seq<Connection>) {
    |kept| <= 1 && (kept != [] ==> ConnectionOk(kept[0]) && kept[0].socket == c.socket)
  }

  lemma KeptOk(c: Connection, t: Turn)
    requires ConnectionOk(c) && InputOk(t.input)
    ensures GoesBack(c, Kept(c, t))
  {
    ServedOk(c, t.input);
  }

  lemma SocketsTurned(q: seq<Connection>, kept: seq<Connection>)
    requires q != [] && GoesBack(q[0], kept)
    ensures multiset(Sockets(q[1..] + kept)) + (if kept == [] then multiset{q[0].socket} else multiset{})
         == multiset(Sockets(q))
  {
    var x, rest := q[0].socket, Sockets(q[1..]);
    assert Sockets(q) == [x] + rest;
    assert Sockets(q[1..] + kept) == if kept == [] then rest else rest + [x];
  }

  lemma TurnedKeeps(s: State, kept: seq<Connection>)
    requires Inv(s) && s.queue != [] && GoesBack(s.queue[0], kept)
    ensures Inv(Turned(s, kept))
  {
    SocketsTurned(s.queue, kept);
  }

  lemma ArrivedKeeps(s: State, kind: Kind, socket: int)
    requires Inv(s)
    ensures Inv(Arrived(s, kind, socket))
  {
    var c := InitConnection(kind, socket);
    assert Sockets(s.queue + [c]) == Sockets(s.queue) + [socket];
  }

  lemma StepKeepsInv(s: State, op: Op)
    requires Inv(s) && OpOk(op)
    ensures Inv(Do(s, op))
  {
    match op
    case Accept(kind, Content(socket)) => ArrivedKeeps(s, kind, socket);
    case Accept(_, _) =>
    case Process(t) =>
      if s.queue != [] {
        KeptOk(s.queue[0], t);
        TurnedKeeps(s, Kept(s.queue[0], t));
      }
  }

  function Run(s: State, ops: seq<Op>): (r: State)
    requires Inv(s) && OpsOk(ops)
    ensures Inv(r)
    decreases |ops|
  {
    if ops == [] then s
    else
      var n := |ops| - 1;
      var last := Run(s, ops[..n]);
      StepKeepsInv(last, ops[n]);
      Do(last, ops[n])
  }

  const STARTED: State := State([], [], [], [])

  /** At every point of every run a socket has been queued or closed as often as it has been
      accepted, and the queued connections are in order. */
  lemma Conservation(ops: seq<Op>, socket: int)
    requires OpsOk(ops)
    ensures var s := Run(STARTED, ops);
            && multiset(s.accepted)[socket] == multiset(Sockets(s.queue))[socket] + multiset(s.closed)[socket]
            && forall c :: c in s.queue ==> ConnectionOk(c)
  {
    assert Sockets([]) == [];
    assert Inv(STARTED);
  }

  /** The kernel hands out no socket that is still open. */
  predicate KernelOk(s: State, op: Op) {
    op.Accept? && op.result.Content? ==> op.result.socket !in Sockets(s.queue)
  }

  predicate KernelOkRun(s: State, ops: seq<Op>)
    requires Inv(s) && OpsOk(ops)
    decreases |ops|
  {
    ops != [] ==>
      var n := |ops| - 1;
      KernelOkRun(s, ops[..n]) && KernelOk(Run(s, ops[..n]), ops[n])
  }

  predicate Distinct(q: seq<Connection>) {
    forall i, j :: 0 <= i < j < |q| ==> q[i].socket != q[j].socket
  }

  lemma StepKeepsDistinct(s: State, op: Op)
    requires Inv(s) && OpOk(op) && Distinct(s.queue) && KernelOk(s, op)
    ensures Distinct(Do(s, op).queue)
  {
    match op
    case Accept(kind, Content(socket)) =>
      assert forall i :: 0 <= i < |s.queue| ==> Sockets(s.queue)[i] == s.queue[i].socket;
    case Accept(_, _) =>
    case Process(t) =>
      if s.queue != [] {
        KeptOk(s.queue[0], t);
        TurnedKeepsDistinct(s.queue, Kept(s.queue[0], t));
      }
  }

  lemma TurnedKeepsDistinct(q: seq<Connection>, kept: seq<Connection>)
    requires q != [] && Distinct(q) && GoesBack(q[0], kept)
    ensures Distinct(q[1..] + kept)
  {
  }

  lemma {:induction false} CountedOnce(q: seq<Connection>, socket: int)
    requires Distinct(q)
    ensures multiset(Sockets(q))[socket] <= 1
    ensures multiset(Sockets(q))[socket] == 1 <==> exists i :: 0 <= i < |q| && q[i].socket == socket
    decreases |q|
  {
    if q == [] {
      assert Sockets(q) == [];
    } else {
      var rest := q[1..];
      CountedOnce(rest, socket);
      assert Sockets(q) == [q[0].socket] + Sockets(rest);
      assert forall i :: 0 <= i < |rest| ==> rest[i] == q[i + 1];
      assert q[0].socket == socket ==> forall i :: 0 <= i < |rest| ==> rest[i].socket != socket;
    }
  }

  /** The acceptances of a socket that have not been closed. */
  function StillOpen(s: State, socket: int): int {
    multiset(s.accepted)[socket] as int - multiset(s.closed)[socket] as int
  }

  /** Over every run a socket is open at most once, and it is open exactly if it is queued,
      in exactly one place. */
  lemma OpenIsQueuedOnce(ops: seq<Op>, socket: int)
    requires OpsOk(ops)
    requires KernelOkRun(STARTED, ops)
    ensures var s := Run(STARTED, ops);
            && 0 <= StillOpen(s, socket) <= 1 && Distinct(s.queue)
            && (StillOpen(s, socket) == 1 <==> exists i :: 0 <= i < |s.queue| && s.queue[i].socket == socket)
  {
    QueuedOnce(STARTED, ops);
    Conservation(ops, socket);
    CountedOnce(Run(STARTED, ops).queue, socket);
  }

  /** No two queued connections ever share a socket. */
  lemma {:induction false} QueuedOnce(s: State, ops: seq<Op>)
    requires Inv(s) && Distinct(s.queue) && OpsOk(ops)
    requires KernelOkRun(s, ops)
    ensures Distinct(Run(s, ops).queue)
    decreases |ops|
  {
    if ops != [] {
      var n := |ops| - 1;
      QueuedOnce(s, ops[..n]);
      StepKeepsDistinct(Run(s, ops[..n]), ops[n]);
    }
  }

  // ----- Fairness -----

  function Turns(ops: seq<Op>): nat {
    if ops == [] then 0 else Turns(ops[..|ops| - 1]) + if ops[|ops| - 1].Process? then 1 else 0
  }

  /** After `n` turns the first `n` queued connections have been served, in order and as they
      were queued, and the others have moved up by `n`. */
  predicate Advanced(s: State, n: nat, r: State) {
    && s.served + s.queue[..Min(n, |s.queue|)] <= r.served
    && (n <= |s.queue| ==> r.served == s.served + s.queue[..n] && s.queue[n..] <= r.queue)
  }

  lemma AdvancedTurn(s: State, n: nat, r: State, kept: seq<Connection>)
    requires Advanced(s, n, r) && r.queue != []
    ensures Advanced(s, n + 1, Turned(r, kept))
  {
    if n < |s.queue| {
      assert s.queue[n..][0] == s.queue[n] == r.queue[0];
      assert s.queue[..n + 1] == s.queue[..n] + [s.queue[n]];
      assert s.queue[n + 1..] == s.queue[n..][1..];
    } else {
      assert s.queue[..Min(n + 1, |s.queue|)] == s.queue[..Min(n, |s.queue|)];
    }
  }

  /** A connection `k` places from the front is the one served by the `(k+1)`-th following
      turn, whatever is accepted in between and whatever the handlers answer. */
  lemma {:induction false} RoundRobin(s: State, ops: seq<Op>)
    requires Inv(s) && OpsOk(ops)
    ensures Advanced(s, Turns(ops), Run(s, ops))
    decreases |ops|
  {
    if ops == [] {
      assert s.queue[..0] == [] && s.queue[0..] == s.queue;
    } else {
      var n := |ops| - 1;
      RoundRobin(s, ops[..n]);
      AdvancedStep(s, Turns(ops[..n]), Run(s, ops[..n]), ops[n], Turns(ops));
    }
  }

  lemma AdvancedStep(s: State, n: nat, r: State, op: Op, m: nat)
    requires Inv(r) && OpOk(op) && Advanced(s, n, r) && m == if op.Process? then n + 1 else n
    ensures Advanced(s, m, Do(r, op))
  {
    match op
    case Accept(_, _) =>
    case Process(t) =>
      if r.queue != [] {
        AdvancedTurn(s, n, r, Kept(r.queue[0], t));
      } else {
        assert n >= |s.queue|;
      }
  }
}
