/** What holds of an SMTP session played alone holds of it inside the master service. */
module ServedSessions {
  import opened Bits
  import opened Smtp
  import opened SmtpOrder
  import opened ConnQueue
  import opened Master

  predicate Inputs(xs: seq<Input>) {
    forall k :: 0 <= k < |xs| ==> InputOk(xs[k])
  }

  /** `c` is the connection of an open session that has read `xs`. */
  predicate SessionIs(c: Connection, xs: seq<Input>) {
    Inputs(xs) && Play(c.socket, xs).open && Play(c.socket, xs).conn == c
  }

  /** The reads of each queued connection so far, slot by slot. */
  function NextInputs(s: State, inputs: seq<seq<Input>>, op: Op): (r: seq<seq<Input>>)
    requires Inv(s) && OpOk(op) && |inputs| == |s.queue|
    ensures |r| == |Do(s, op).queue|
  {
    match op
    case Accept(_, Content(_)) => if |s.queue| == CAPACITY then inputs else inputs + [[]]
    case Accept(_, _) => inputs
    case Process(t) =>
      if s.queue == [] then inputs
      else
        KeptOk(s.queue[0], t);
        inputs[1..] + if Kept(s.queue[0], t) == [] then [] else [inputs[0] + [t.input]]
  }

  function InputsIn(ops: seq<Op>): (r: seq<seq<Input>>)
    requires OpsOk(ops)
    ensures |r| == |Run(STARTED, ops).queue|
    decreases |ops|
  {
    if ops == [] then []
    else
      var n := |ops| - 1;
      NextInputs(Run(STARTED, ops[..n]), InputsIn(ops[..n]), ops[n])
  }

  /** Each queued SMTP connection is that of a session with exactly its own reads. */
  predicate AllSessions(q: seq<Connection>, inputs: seq<seq<Input>>) {
    |inputs| == |q| && forall i :: 0 <= i < |q| && q[i].kind.SMTP? ==> SessionIs(q[i], inputs[i])
  }

  /** One more turn is one more step of the same session. */
  lemma SessionGoesOn(c: Connection, t: Turn, xs: seq<Input>)
    requires ConnectionOk(c) && InputOk(t.input) && c.kind.SMTP? && SessionIs(c, xs)
    ensures Kept(c, t) != [] ==> SessionIs(Kept(c, t)[0], xs + [t.input])
  {
    if Kept(c, t) != [] {
      var d := Kept(c, t)[0];
      assert Served(c, t.input) == Some(d);
      KeptOk(c, t);
      PlayOne(c.socket, xs, Play(c.socket, xs), t.input, d, EventOf(c, t.input));
    }
  }

  lemma HandleKeepsKind(c: Connection, x: Input)
    requires ConnectionOk(c) && InputOk(x)
    ensures Handle(c, x).0.kind == c.kind
  {
  }

  lemma StaysSmtp(c: Connection, t: Turn)
    requires ConnectionOk(c) && InputOk(t.input) && Kept(c, t) != []
    ensures Kept(c, t)[0].kind == c.kind
  {
    HandleKeepsKind(c, t.input);
  }

  lemma StepKeepsSessions(s: State, inputs: seq<seq<Input>>, op: Op)
    requires Inv(s) && OpOk(op) && AllSessions(s.queue, inputs)
    ensures AllSessions(Do(s, op).queue, NextInputs(s, inputs, op))
  {
    match op
    case Accept(kind, Content(socket)) =>
      assert kind.SMTP? ==> SessionIs(InitConnection(kind, socket), []);
    case Accept(_, _) =>
    case Process(t) =>
      if s.queue != [] {
        KeptOk(s.queue[0], t);
        if Kept(s.queue[0], t) != [] {
          StaysSmtp(s.queue[0], t);
        }
        if s.queue[0].kind.SMTP? {
          SessionGoesOn(s.queue[0], t, inputs[0]);
        }
        TurnedSessions(s.queue, inputs, Kept(s.queue[0], t), inputs[0] + [t.input]);
      }
  }

  lemma TurnedSessions(q: seq<Connection>, inputs: seq<seq<Input>>, kept: seq<Connection>, xs: seq<Input>)
    requires q != [] && AllSessions(q, inputs) && |kept| <= 1
    requires kept != [] && kept[0].kind.SMTP? ==> SessionIs(kept[0], xs)
    ensures AllSessions(q[1..] + kept, inputs[1..] + if kept == [] then [] else [xs])
  {
  }

  /** In every run, whatever the other connections do meanwhile, each queued SMTP connection
      is in the state its own reads give a session played alone. */
  lemma {:induction false} QueuedAreSessions(ops: seq<Op>)
    requires OpsOk(ops)
    ensures AllSessions(Run(STARTED, ops).queue, InputsIn(ops))
    decreases |ops|
  {
    if ops != [] {
      var n := |ops| - 1;
      QueuedAreSessions(ops[..n]);
      StepKeepsSessions(Run(STARTED, ops[..n]), InputsIn(ops[..n]), ops[n]);
    }
  }

  /** The server accepts MAIL and RCPT in order: what a turn does with the connection it serves
      is the next event of that connection's own session, whose log is ordered throughout. */
  lemma TurnInOrder(ops: seq<Op>, t: Turn)
    requires OpsOk(ops) && InputOk(t.input)
    requires Run(STARTED, ops).queue != [] && Run(STARTED, ops).queue[0].kind.SMTP?
    ensures var c, xs := Run(STARTED, ops).queue[0], InputsIn(ops)[0];
            && ConnectionOk(c) && SessionIs(c, xs) && Inputs(xs + [t.input])
            && var log := Play(c.socket, xs + [t.input]).log;
               && log == Play(c.socket, xs).log + [EventOf(c, t.input)]
               && forall k :: 0 <= k < |log| ==> Ordered(log, k)
  {
    var c, xs := Run(STARTED, ops).queue[0], InputsIn(ops)[0];
    QueuedAreSessions(ops);
    assert (xs + [t.input])[..|xs|] == xs;
    SessionOrder(c.socket, xs + [t.input]);
  }

  /** A turn of an SMTP connection puts it back at the end of the queue, as its own session goes
      on, unless the turn closes that session; exactly then its socket is closed. */
  lemma TurnExact(s: State, t: Turn)
    requires Inv(s) && InputOk(t.input) && s.queue != [] && s.queue[0].kind.SMTP?
    ensures var c, r := s.queue[0], Do(s, Process(t));
            && ConnectionOk(c) && r.accepted == s.accepted && r.served == s.served + [c]
            && (Closing(c, t.input) ==> r.queue == s.queue[1..] && r.closed == s.closed + [c.socket])
            && (!Closing(c, t.input) ==>
                  && Served(c, t.input).Some? && r.closed == s.closed
                  && r.queue == s.queue[1..] + [Served(c, t.input).value])
  {
    var c := s.queue[0];
    ClosesExactly(c, t.input);
  }

  /** The other handlers' answers decide in the same way. */
  lemma OtherTurnExact(s: State, t: Turn)
    requires Inv(s) && InputOk(t.input) && s.queue != [] && !s.queue[0].kind.SMTP?
    ensures var c, r := s.queue[0], Do(s, Process(t));
            && r.accepted == s.accepted && r.served == s.served + [c]
            && (t.other == Continue ==> r.closed == s.closed && r.queue == s.queue[1..] + [c])
            && (t.other == Reset ==>
                  && r.closed == s.closed && |r.queue| == |s.queue| && r.queue[..|s.queue| - 1] == s.queue[1..]
                  && StartsAgain(c, r.queue[|s.queue| - 1]))
            && (t.other == Done || t.other == Error ==> r.queue == s.queue[1..] && r.closed == s.closed + [c.socket])
  {
  }

  /** The same connection waits for any command, still greeted if it was, and has no data. */
  predicate StartsAgain(c: Connection, d: Connection) {
    && d.live && d.kind == c.kind && d.socket == c.socket
    && d.phase == (if c.phase == Greeted then Greeted else ExpectAny)
    && d.allocCount == 0 && d.bufferEnd == 0 && d.buffer.None?
  }

  /** A connection as it is accepted, before anything has been sent or read. */
  predicate IsNew(c: Connection, kind: Kind, socket: int) {
    && c.live && c.kind == kind && c.socket == socket && c.allocCount == 0 && c.bufferEnd == 0 && c.buffer.None?
    && c.phase == if kind in {HTTP, HTTPS} then HttpOpened else Opened
  }

  /** An accepted socket is queued last, as a new connection of its listener's kind, unless 512
      are waiting; exactly then it is closed. */
  lemma ArrivalExact(s: State, kind: Kind, socket: int)
    requires Inv(s)
    ensures var r := Do(s, Accept(kind, Content(socket)));
            && r.accepted == s.accepted + [socket] && r.served == s.served
            && (|s.queue| < 512 ==>
                  && r.closed == s.closed && |r.queue| == |s.queue| + 1 && r.queue[..|s.queue|] == s.queue
                  && IsNew(r.queue[|s.queue|], kind, socket))
            && (|s.queue| >= 512 ==> r.closed == s.closed + [socket] && r.queue == s.queue)
  {
  }
}
