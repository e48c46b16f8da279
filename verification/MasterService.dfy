/** The master service as it runs: the ring queue, its two users and the loop around them. */
module MasterService {
  import opened Bits
  import opened Smtp
  import opened ConnQueue
  import opened Master

  /** One pass of the loop: which listeners are active, what `accept` returned on each one's
      IPv4 and IPv6 socket, and the turn of the connection served. */
  datatype Listener = Listener(kind: Kind, active: bool, result4: Accepted, result6: Accepted)

  datatype Pass = Pass(smtp: Listener, smtps: Listener, starttls: Listener, http: Listener, https: Listener, turn: Turn)

  predicate PassOk(p: Pass) {
    && p.smtp.kind == SMTP && p.smtps.kind == SMTPS && p.starttls.kind == STARTTLS
    && p.http.kind == HTTP && p.https.kind == HTTPS && InputOk(p.turn.input)
  }

  function ListenerOps(l: Listener): seq<Op> {
    if l.active then [Accept(l.kind, l.result4), Accept(l.kind, l.result6)] else []
  }

  function AcceptOps(p: Pass): (ops: seq<Op>)
    ensures forall i :: 0 <= i < |ops| ==> ops[i].Accept?
  {
    ListenerOps(p.smtp) + ListenerOps(p.smtps) + ListenerOps(p.starttls) + ListenerOps(p.http) + ListenerOps(p.https)
  }

  function PassOps(p: Pass): (ops: seq<Op>)
    requires PassOk(p)
    ensures OpsOk(ops)
  {
    AcceptOps(p) + [Process(p.turn)]
  }

  function LoopOps(passes: seq<Pass>): (ops: seq<Op>)
    requires forall i :: 0 <= i < |passes| ==> PassOk(passes[i])
    ensures OpsOk(ops)
    decreases |passes|
  {
    if passes == [] then [] else LoopOps(passes[..|passes| - 1]) + PassOps(passes[|passes| - 1])
  }

  function ListenerOf(p: Pass, kind: Kind): Listener {
    match kind
    case SMTP => p.smtp
    case SMTPS => p.smtps
    case STARTTLS => p.starttls
    case HTTP => p.http
    case HTTPS => p.https
  }

  /** How many sockets of a listener are asked. */
  function Asked(l: Listener): nat {
    if l.active then 2 else 0
  }

  /** A pass takes what both sockets of each active listener returned, and nothing else, and
      then serves one connection. */
  lemma PassExact(p: Pass)
    requires PassOk(p)
    ensures forall kind, result :: Accept(kind, result) in PassOps(p) <==>
              var l := ListenerOf(p, kind); l.active && (result == l.result4 || result == l.result6)
    ensures var n := |PassOps(p)| - 1;
            && n == Asked(p.smtp) + Asked(p.smtps) + Asked(p.starttls) + Asked(p.http) + Asked(p.https)
            && PassOps(p)[n] == Process(p.turn) && forall i :: 0 <= i < n ==> PassOps(p)[i].Accept?
  {
  }

  lemma LoopStep(passes: seq<Pass>, k: nat)
    requires k < |passes| && forall i :: 0 <= i < |passes| ==> PassOk(passes[i])
    ensures LoopOps(passes[..k + 1]) == LoopOps(passes[..k]) + PassOps(passes[k])
  {
    assert passes[..k + 1][..k] == passes[..k];
  }

  lemma RunMore(s: State, ops: seq<Op>, op: Op)
    requires Inv(s) && OpsOk(ops) && OpOk(op)
    ensures Run(s, ops + [op]) == Do(Run(s, ops), op)
  {
    assert (ops + [op])[..|ops|] == ops;
  }

  class Service {
    const connqueue: ConnectionQueue
    var accepted: seq<int>
    var closed: seq<int>
    var served: seq<Connection>
    /** Every accept and turn so far. */
    ghost var history: seq<Op>

    ghost function Now(): State
      requires connqueue.Valid()
      reads this, connqueue, connqueue.data
    {
      State(connqueue.Contents(), accepted, closed, served)
    }

    /** The state is where the history leads. */
    ghost predicate Valid()
      reads this, connqueue, connqueue.data
    {
      connqueue.Valid() && OpsOk(history) && Now() == Run(STARTED, history)
    }

    constructor ()
      ensures Valid() && Now() == STARTED && fresh(connqueue) && fresh(connqueue.data)
    {
      connqueue := new ConnectionQueue();
      accepted, closed, served, history := [], [], [], [];
      new;
      assert Sockets([]) == [];
    }

    /** `connection_deinit`, as far as the socket goes. */
    method Close(conn: Connection)
      modifies this
      ensures closed == old(closed) + [conn.socket]
      ensures accepted == old(accepted) && served == old(served) && history == old(history)
    {
      closed := closed + [conn.socket];
    }

    /** Queues a new connection or, when the queue is full, closes it. */
    method Admit(kind: Kind, socket: int)
      requires connqueue.Valid()
      modifies this, connqueue, connqueue.data
      ensures connqueue.Valid() && accepted == old(accepted) && served == old(served) && history == old(history)
      ensures |old(connqueue.Contents())| < CAPACITY ==>
                && closed == old(closed)
                && connqueue.Contents() == old(connqueue.Contents()) + [InitConnection(kind, socket)]
      ensures |old(connqueue.Contents())| == CAPACITY ==>
                closed == old(closed) + [socket] && connqueue.Contents() == old(connqueue.Contents())
    {
      var conn := InitConnection(kind, socket);
      var e := connqueue.Enqueue(conn);
      if e != 0 {
        Close(conn);
      }
    }

    /** The accept step itself. */
    method Receive(kind: Kind, result: Accepted) returns (r: int)
      requires connqueue.Valid() && Inv(Now())
      modifies this, connqueue, connqueue.data
      ensures connqueue.Valid() && Now() == Do(old(Now()), Accept(kind, result)) && history == old(history)
      ensures r == 0 <==> !result.AcceptError?
    {
      match result {
        case Unblock => return 0;
        case AcceptError => return 1;
        case Content(socket) =>
          ghost var was := Now();
          accepted := accepted + [socket];
          Admit(kind, socket);
          assert Now() == Arrived(was, kind, socket);
          return 0;
      }
    }

    method HandleConnection(kind: Kind, result: Accepted) returns (r: int)
      requires Valid()
      modifies this, connqueue, connqueue.data
      ensures Valid() && Now() == Do(old(Now()), Accept(kind, result))
      ensures history == old(history) + [Accept(kind, result)]
      ensures r == 0 <==> !result.AcceptError?
    {
      RunMore(STARTED, history, Accept(kind, result));
      r := Receive(kind, result);
      history := history + [Accept(kind, result)];
    }

    method PutBack(conn: Connection)
      requires connqueue.Valid()
      modifies this, connqueue, connqueue.data
      ensures connqueue.Valid() && history == old(history)
      ensures |old(connqueue.Contents())| < CAPACITY ==>
                Now() == old(Now()).(queue := old(connqueue.Contents()) + [conn])
      ensures |old(connqueue.Contents())| == CAPACITY ==>
                Now() == old(Now()).(closed := old(closed) + [conn.socket])
    {
      var e := connqueue.Enqueue(conn);
      if e != 0 {
        Close(conn);
      }
    }

    /** Acts on the handler's result. The dequeue has freed a slot, so a connection that goes
        on always finds its way back. */
    method Settle(next: Connection, result: Result)
      requires connqueue.Valid() && |connqueue.Contents()| < CAPACITY
      modifies this, connqueue, connqueue.data
      ensures connqueue.Valid()
      ensures connqueue.Contents() == old(connqueue.Contents()) + Back(next, result)
      ensures closed == if Back(next, result) == [] then old(closed) + [next.socket] else old(closed)
      ensures accepted == old(accepted) && served == old(served) && history == old(history)
    {
      match result {
        case Continue => PutBack(next);
        case Reset => PutBack(ResetConnection(next));
        case Done => Close(next);
        case Error => Close(next);
      }
    }

    method CallHandler(conn: Connection, t: Turn) returns (next: Connection, result: Result)
      requires ConnectionOk(conn) && InputOk(t.input)
      ensures next == Dispatch(conn, t).0 && result == Dispatch(conn, t).1 && next.socket == conn.socket
    {
      next, result := conn, t.other;
      if conn.kind == SMTP {
        next, result := SmtpHandler(conn, t.input);
      }
    }

    /** The serving step itself. */
    method Serve(t: Turn)
      requires connqueue.Valid() && Inv(Now()) && InputOk(t.input)
      modifies this, connqueue, connqueue.data
      ensures connqueue.Valid() && Now() == Do(old(Now()), Process(t)) && history == old(history)
    {
      ghost var was := Now();
      var e, conn := connqueue.Dequeue(Connection(false, SMTP, Opened, 0, 0, 0, None));
      if e != 0 {
        return;
      }
      ghost var rest := connqueue.Contents();
      assert conn == was.queue[0];
      served := served + [conn];
      var next, result := CallHandler(conn, t);
      Settle(next, result);
      TurnedIs(was, conn, rest, Kept(conn, t), Now());
    }

    method ProcessConnection(t: Turn)
      requires Valid() && InputOk(t.input)
      modifies this, connqueue, connqueue.data
      ensures Valid() && Now() == Do(old(Now()), Process(t))
      ensures history == old(history) + [Process(t)]
    {
      RunMore(STARTED, history, Process(t));
      Serve(t);
      history := history + [Process(t)];
    }

    method Poll(l: Listener)
      requires Valid()
      modifies this, connqueue, connqueue.data
      ensures Valid() && history == old(history) + ListenerOps(l)
    {
      if l.active {
        var r := HandleConnection(l.kind, l.result4);
        r := HandleConnection(l.kind, l.result6);
      }
    }

    /** One pass of the loop. */
    method OnePass(p: Pass)
      requires Valid() && PassOk(p)
      modifies this, connqueue, connqueue.data
      ensures Valid() && history == old(history) + PassOps(p)
    {
      Poll(p.smtp);
      Poll(p.smtps);
      Poll(p.starttls);
      Poll(p.http);
      Poll(p.https);
      ProcessConnection(p.turn);
      Regroup6(old(history), ListenerOps(p.smtp), ListenerOps(p.smtps), ListenerOps(p.starttls), ListenerOps(p.http),
               ListenerOps(p.https), [Process(p.turn)]);
    }

    /** The loop until it is stopped after `|passes|` passes. */
    method MakePasses(passes: seq<Pass>)
      requires Valid() && forall i :: 0 <= i < |passes| ==> PassOk(passes[i])
      modifies this, connqueue, connqueue.data
      ensures Valid() && history == old(history) + LoopOps(passes)
    {
      ghost var ops: seq<Op> := [];
      var k := 0;
      while k != |passes|
        invariant 0 <= k <= |passes| && ops == LoopOps(passes[..k])
        invariant Valid() && history == old(history) + ops
      {
        OnePass(passes[k]);
        LoopStep(passes, k);
        Regroup(old(history), ops, PassOps(passes[k]));
        ops := ops + PassOps(passes[k]);
        k := k + 1;
      }
      assert passes[..k] == passes;
    }

    method StartMasterService(passes: seq<Pass>)
      requires Valid() && forall i :: 0 <= i < |passes| ==> PassOk(passes[i])
      modifies this, connqueue, connqueue.data
      ensures Valid() && history == old(history) + LoopOps(passes)
      ensures Now() == Run(old(Now()), LoopOps(passes))
    {
      MakePasses(passes);
      RunAppend(STARTED, old(history), LoopOps(passes));
    }
  }

  /** Field by field, the state after a turn. */
  lemma TurnedIs(was: State, conn: Connection, rest: seq<Connection>, kept: seq<Connection>, now: State)
    requires was.queue == [conn] + rest && now.queue == rest + kept && now.served == was.served + [conn]
    requires now.accepted == was.accepted
    requires now.closed == if kept == [] then was.closed + [conn.socket] else was.closed
    ensures was.queue != [] && now == Turned(was, kept)
  {
    assert was.queue[1..] == rest;
  }

  lemma Regroup(a: seq<Op>, b: seq<Op>, c: seq<Op>)
    ensures a + b + c == a + (b + c)
  {
  }

  lemma Regroup6(x: seq<Op>, a: seq<Op>, b: seq<Op>, c: seq<Op>, d: seq<Op>, e: seq<Op>, f: seq<Op>)
    ensures x + a + b + c + d + e + f == x + (a + b + c + d + e + f)
  {
    Regroup(x, a, b);
    Regroup(x, a + b, c);
    Regroup(x, a + b + c, d);
    Regroup(x, a + b + c + d, e);
    Regroup(x, a + b + c + d + e, f);
  }

  lemma {:induction false} RunAppend(s: State, ops: seq<Op>, more: seq<Op>)
    requires Inv(s) && OpsOk(ops) && OpsOk(more)
    ensures OpsOk(ops + more) && Run(s, ops + more) == Run(Run(s, ops), more)
    decreases |more|
  {
    if more == [] {
      assert ops + more == ops;
    } else {
      var m, last := more[..|more| - 1], more[|more| - 1];
      assert ops + more == ops + m + [last] && more == m + [last];
      RunAppend(s, ops, m);
      RunMore(s, ops + m, last);
      RunMore(Run(s, ops), m, last);
    }
  }

  lemma {:induction false} NoTurns(ops: seq<Op>, accepts: seq<Op>)
    requires forall i :: 0 <= i < |accepts| ==> accepts[i].Accept?
    ensures Turns(ops + accepts) == Turns(ops)
    decreases |accepts|
  {
    if accepts == [] {
      assert ops + accepts == ops;
    } else {
      var n := |accepts| - 1;
      assert (ops + accepts)[..|ops| + n] == ops + accepts[..n];
      NoTurns(ops, accepts[..n]);
    }
  }

  lemma TurnsOfPass(ops: seq<Op>, p: Pass)
    requires PassOk(p)
    ensures Turns(ops + PassOps(p)) == Turns(ops) + 1
  {
    NoTurns(ops, AcceptOps(p));
    var all := ops + PassOps(p);
    assert all[..|all| - 1] == ops + AcceptOps(p) && all[|all| - 1] == Process(p.turn);
  }

  /** Each pass takes exactly one turn. */
  lemma {:induction false} TurnsOfLoop(passes: seq<Pass>)
    requires forall i :: 0 <= i < |passes| ==> PassOk(passes[i])
    ensures Turns(LoopOps(passes)) == |passes|
    decreases |passes|
  {
    if passes != [] {
      var n := |passes| - 1;
      TurnsOfLoop(passes[..n]);
      TurnsOfPass(LoopOps(passes[..n]), passes[n]);
    }
  }

  lemma ServedAt(s: State, n: nat, r: State, k: nat)
    requires Advanced(s, n, r) && k < |s.queue| && k < n
    ensures |s.served| + k < |r.served| && r.served[|s.served| + k] == s.queue[k]
    ensures n == k + 1 ==> |r.served| == |s.served| + n
  {
    assert (s.served + s.queue[..Min(n, |s.queue|)])[|s.served| + k] == s.queue[k];
  }

  /** From any loop point, the connection `k` places from the front is served in the
      `(k+1)`-th pass from there. */
  lemma ServedInPass(s: State, passes: seq<Pass>, k: nat)
    requires Inv(s) && forall i :: 0 <= i < |passes| ==> PassOk(passes[i])
    requires k < |s.queue| && k < |passes|
    ensures |s.served| + k < |Run(s, LoopOps(passes)).served|
    ensures Run(s, LoopOps(passes)).served[|s.served| + k] == s.queue[k]
    ensures |passes| == k + 1 ==> |Run(s, LoopOps(passes)).served| == |s.served| + k + 1
  {
    RoundRobin(s, LoopOps(passes));
    TurnsOfLoop(passes);
    ServedAt(s, |passes|, Run(s, LoopOps(passes)), k);
  }
}
