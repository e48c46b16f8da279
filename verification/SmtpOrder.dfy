/** In which order a whole SMTP session can accept its commands. */
module SmtpOrder {
  import opened Bits
  import opened Smtp

  /** What the client sees of one call of the handler. `Other` is any call that neither
      accepts a command below nor refuses MAIL or RCPT for being out of sequence. */
  datatype Event =
    | Banner | TlsStart | TlsDone | Greet | ResetOk
    | MailOk | MailRefused | RcptOk | RcptRefused
    | DataStart | DataDone | DataTooLarge | Other

  function CommandEvent(c: Connection, buf: string): Event {
    match Parse(buf)
    case Some(HELO) => if WordFits(buf, 5, DOMAIN_MAX_SIZE) then Greet else Other
    case Some(EHLO) => if WordFits(buf, 5, DOMAIN_MAX_SIZE) then Greet else Other
    case Some(MAIL) => if c.phase.ExpectAny? then MailRefused else MailOk
    case Some(RCPT) => if c.phase.Mailing? || c.phase.Rcpt? then RcptOk else RcptRefused
    case Some(RSET) => ResetOk
    case Some(DATA) => DataStart
    case Some(STARTTLS_) => TlsStart
    case _ => Other
  }

  function EventOf(c: Connection, x: Input): Event
    requires ConnectionOk(c) && InputOk(x)
  {
    if c.phase.Opened? then Banner
    else if c.phase.ExpectTlsNeg? then (if x.tls.TlsOk? then TlsDone else Other)
    else if !x.read.Data? then Other
    else if c.phase.ExpectData? then
      var (d, r) := HandleData(c, x.read.bytes, x);
      if r != Reset then Other else if d.phase.Greeted? then DataDone else DataTooLarge
    else if |x.read.bytes| >= SMALL_BUFFER_SIZE - 1 then Other
    else CommandEvent(c, ReadBuffer(x.read.bytes))
  }

  datatype Session = Session(open: bool, conn: Connection, log: seq<Event>)

  /** A session from its accepted socket on, served once per input until it is closed. */
  function Play(socket: int, xs: seq<Input>): (s: Session)
    requires forall k :: 0 <= k < |xs| ==> InputOk(xs[k])
    ensures s.open ==> ConnectionOk(s.conn)
    decreases |xs|
  {
    if xs == [] then Session(true, InitConnection(SMTP, socket), [])
    else
      var s := Play(socket, xs[..|xs| - 1]);
      var x := xs[|xs| - 1];
      if !s.open then s
      else
        ServedOk(s.conn, x);
        var log := s.log + [EventOf(s.conn, x)];
        match Served(s.conn, x)
        case None => s.(open := false, log := log)
        case Some(d) => Session(true, d, log)
  }

  // ----- What the log alone says -----

  /** A MAIL was accepted and no greeting, RSET, DATA or STARTTLS since. */
  predicate MailOpen(log: seq<Event>) {
    exists i :: 0 <= i < |log| && MailAt(log, i)
  }

  predicate MailAt(log: seq<Event>, i: nat) {
    && i < |log| && log[i] == MailOk
    && forall j :: i < j < |log| ==> log[j] !in {Greet, ResetOk, DataStart, TlsStart}
  }

  /** Step `j` makes the session start over: the banner, the end of a TLS negotiation, an
      oversized body, or an RSET inside a mail transaction. */
  predicate StartsOver(log: seq<Event>, j: nat) {
    j < |log| && (log[j] in {Banner, TlsDone, DataTooLarge} || (log[j] == ResetOk && MailOpen(log[..j])))
  }

  /** There was a greeting or a completed body, and the session has not started over since. */
  predicate Sequenced(log: seq<Event>) {
    exists i :: 0 <= i < |log| && SequencedAt(log, i)
  }

  predicate SequencedAt(log: seq<Event>, i: nat) {
    && i < |log| && log[i] in {Greet, DataDone}
    && forall j :: i < j < |log| ==> !StartsOver(log, j)
  }

  lemma MailOpenStep(log: seq<Event>, e: Event)
    ensures MailOpen(log + [e]) <==> e == MailOk || (MailOpen(log) && e !in {Greet, ResetOk, DataStart, TlsStart})
  {
    var more := log + [e];
    assert e == MailOk ==> MailAt(more, |log|);
    forall i: nat | i < |log|
      ensures MailAt(more, i) <==> MailAt(log, i) && e !in {Greet, ResetOk, DataStart, TlsStart}
    {
      assert MailAt(more, i) ==> more[|log|] == e;
      if MailAt(more, i) {
        assert forall j :: i < j < |log| ==> log[j] == more[j];
      }
    }
  }

  lemma SequencedStep(log: seq<Event>, e: Event)
    ensures Sequenced(log + [e]) <==>
              e in {Greet, DataDone}
              || (Sequenced(log) && e !in {Banner, TlsDone, DataTooLarge} && !(e == ResetOk && MailOpen(log)))
  {
    var more := log + [e];
    assert more[..|log|] == log;
    assert e in {Greet, DataDone} ==> SequencedAt(more, |log|);
    forall j: nat | j < |log|
      ensures StartsOver(more, j) <==> StartsOver(log, j)
    {
      assert more[..j] == log[..j];
    }
    forall i: nat | i < |log|
      ensures SequencedAt(more, i) <==> SequencedAt(log, i) && !StartsOver(more, |log|)
    {
    }
  }

  // ----- The phase is what the log says -----

  predicate Agrees(c: Connection, log: seq<Event>) {
    match c.phase
    case Opened => log == []
    case ExpectAny => !Sequenced(log) && !MailOpen(log)
    case Greeted => Sequenced(log) && !MailOpen(log)
    case Mailing => Sequenced(log) && MailOpen(log)
    case Rcpt => Sequenced(log) && MailOpen(log)
    case ExpectTlsNeg => !MailOpen(log)
    case ExpectData => !MailOpen(log)
    case HttpOpened => false
  }

  lemma CommandAgrees(c: Connection, log: seq<Event>, buf: string)
    requires Agrees(c, log) && !c.phase.Opened? && !c.phase.ExpectTlsNeg? && !c.phase.ExpectData?
    ensures HandleCommand(c, buf).1 == Continue ==> Agrees(HandleCommand(c, buf).0, log + [CommandEvent(c, buf)])
    ensures HandleCommand(c, buf).1 == Reset
        ==> Agrees(ResetConnection(HandleCommand(c, buf).0), log + [CommandEvent(c, buf)])
  {
    MailOpenStep(log, CommandEvent(c, buf));
    SequencedStep(log, CommandEvent(c, buf));
  }

  lemma StepAgrees(c: Connection, log: seq<Event>, x: Input)
    requires ConnectionOk(c) && InputOk(x) && Agrees(c, log)
    ensures Served(c, x).Some? ==> Agrees(Served(c, x).value, log + [EventOf(c, x)])
  {
    var command := !c.phase.Opened? && !c.phase.ExpectTlsNeg? && !c.phase.ExpectData?;
    if command && x.read.Data? && |x.read.bytes| < SMALL_BUFFER_SIZE - 1 {
      CommandAgrees(c, log, ReadBuffer(x.read.bytes));
    } else {
      MailOpenStep(log, EventOf(c, x));
      SequencedStep(log, EventOf(c, x));
    }
  }

  /** MAIL is accepted exactly in sequence, RCPT exactly inside a mail transaction. */
  predicate Ordered(log: seq<Event>, k: nat)
    requires k < |log|
  {
    && (log[k] == MailOk ==> Sequenced(log[..k]))
    && (log[k] == MailRefused ==> !Sequenced(log[..k]))
    && (log[k] == RcptOk ==> MailOpen(log[..k]))
    && (log[k] == RcptRefused ==> !MailOpen(log[..k]))
  }

  lemma {:induction false} SessionOrder(socket: int, xs: seq<Input>)
    requires forall k :: 0 <= k < |xs| ==> InputOk(xs[k])
    ensures var s := Play(socket, xs);
            && (s.open ==> Agrees(s.conn, s.log))
            && (forall k :: 0 <= k < |s.log| ==> Ordered(s.log, k))
    decreases |xs|
  {
    if xs != [] {
      var s := Play(socket, xs[..|xs| - 1]);
      var x := xs[|xs| - 1];
      SessionOrder(socket, xs[..|xs| - 1]);
      if s.open {
        LastOrdered(s.conn, s.log, x);
        StepAgrees(s.conn, s.log, x);
        KeepsOrder(s.log, EventOf(s.conn, x));
      }
    }
  }

  lemma LastOrdered(c: Connection, log: seq<Event>, x: Input)
    requires ConnectionOk(c) && InputOk(x) && Agrees(c, log)
    ensures Ordered(log + [EventOf(c, x)], |log|)
  {
    assert (log + [EventOf(c, x)])[..|log|] == log;
  }

  lemma KeepsOrder(log: seq<Event>, e: Event)
    requires forall k :: 0 <= k < |log| ==> Ordered(log, k)
    ensures forall k :: 0 <= k < |log| ==> Ordered(log + [e], k)
  {
    forall k | 0 <= k < |log|
      ensures Ordered(log + [e], k)
    {
      assert (log + [e])[..k] == log[..k];
      assert Ordered(log, k);
    }
  }

  // ----- When a session is negotiating, receiving data, or over -----

  /** A STARTTLS was accepted and the negotiation is not finished. */
  predicate TlsOpen(log: seq<Event>) {
    exists i :: 0 <= i < |log| && TlsAt(log, i)
  }

  predicate TlsAt(log: seq<Event>, i: nat) {
    i < |log| && log[i] == TlsStart && forall j :: i < j < |log| ==> log[j] != TlsDone
  }

  /** A DATA was accepted and its body is not finished. */
  predicate DataOpen(log: seq<Event>) {
    exists i :: 0 <= i < |log| && DataAt(log, i)
  }

  predicate DataAt(log: seq<Event>, i: nat) {
    i < |log| && log[i] == DataStart && forall j :: i < j < |log| ==> log[j] !in {DataDone, DataTooLarge}
  }

  lemma TlsOpenStep(log: seq<Event>, e: Event)
    ensures TlsOpen(log + [e]) <==> e == TlsStart || (TlsOpen(log) && e != TlsDone)
  {
    var more := log + [e];
    assert e == TlsStart ==> TlsAt(more, |log|);
    forall i: nat | i < |log|
      ensures TlsAt(more, i) <==> TlsAt(log, i) && e != TlsDone
    {
      assert TlsAt(more, i) ==> more[|log|] == e;
      if TlsAt(more, i) {
        assert forall j :: i < j < |log| ==> log[j] == more[j];
      }
    }
  }

  lemma DataOpenStep(log: seq<Event>, e: Event)
    ensures DataOpen(log + [e]) <==> e == DataStart || (DataOpen(log) && e !in {DataDone, DataTooLarge})
  {
    var more := log + [e];
    assert e == DataStart ==> DataAt(more, |log|);
    forall i: nat | i < |log|
      ensures DataAt(more, i) <==> DataAt(log, i) && e !in {DataDone, DataTooLarge}
    {
      assert DataAt(more, i) ==> more[|log|] == e;
      if DataAt(more, i) {
        assert forall j :: i < j < |log| ==> log[j] == more[j];
      }
    }
  }

  /** Exactly while a negotiation is open the next call negotiates, and exactly while a body is
      open the next read is data. */
  predicate PhaseIs(c: Connection, log: seq<Event>) {
    (c.phase.ExpectTlsNeg? <==> TlsOpen(log)) && (c.phase.ExpectData? <==> DataOpen(log))
  }

  lemma CommandPhase(c: Connection, log: seq<Event>, buf: string)
    requires PhaseIs(c, log) && !c.phase.ExpectTlsNeg? && !c.phase.ExpectData?
    ensures PhaseIs(HandleCommand(c, buf).0, log + [CommandEvent(c, buf)])
    ensures HandleCommand(c, buf).1 == Reset ==>
              PhaseIs(ResetConnection(HandleCommand(c, buf).0), log + [CommandEvent(c, buf)])
  {
    TlsOpenStep(log, CommandEvent(c, buf));
    DataOpenStep(log, CommandEvent(c, buf));
  }

  lemma BodyPhase(c: Connection, log: seq<Event>, x: Input)
    requires ConnectionOk(c) && InputOk(x) && PhaseIs(c, log) && c.phase.ExpectData? && x.read.Data?
    ensures Served(c, x).Some? ==> PhaseIs(Served(c, x).value, log + [EventOf(c, x)])
  {
    TlsOpenStep(log, EventOf(c, x));
    DataOpenStep(log, EventOf(c, x));
  }

  lemma QuietPhase(c: Connection, log: seq<Event>, x: Input)
    requires ConnectionOk(c) && InputOk(x) && PhaseIs(c, log)
    requires !x.read.Data? || c.phase.Opened? || c.phase.ExpectTlsNeg?
    ensures Served(c, x).Some? ==> PhaseIs(Served(c, x).value, log + [EventOf(c, x)])
  {
    TlsOpenStep(log, EventOf(c, x));
    DataOpenStep(log, EventOf(c, x));
  }

  lemma StepPhase(c: Connection, log: seq<Event>, x: Input)
    requires ConnectionOk(c) && InputOk(x) && PhaseIs(c, log)
    ensures Served(c, x).Some? ==> PhaseIs(Served(c, x).value, log + [EventOf(c, x)])
  {
    if !x.read.Data? || c.phase.Opened? || c.phase.ExpectTlsNeg? {
      QuietPhase(c, log, x);
    } else if c.phase.ExpectData? {
      BodyPhase(c, log, x);
    } else if |x.read.bytes| < SMALL_BUFFER_SIZE - 1 {
      CommandPhase(c, log, ReadBuffer(x.read.bytes));
    }
  }

  lemma {:induction false} SessionPhase(socket: int, xs: seq<Input>)
    requires forall k :: 0 <= k < |xs| ==> InputOk(xs[k])
    ensures Play(socket, xs).open ==> PhaseIs(Play(socket, xs).conn, Play(socket, xs).log)
    decreases |xs|
  {
    if xs != [] {
      var s := Play(socket, xs[..|xs| - 1]);
      SessionPhase(socket, xs[..|xs| - 1]);
      if s.open {
        StepPhase(s.conn, s.log, xs[|xs| - 1]);
      }
    }
  }

  /** What ends a session, from what it is waiting for: a failed TLS negotiation; otherwise a
      read error or the end of the input, a body read without memory before the limit, or a
      line that is QUIT or too long. */
  predicate Closing(c: Connection, x: Input) {
    match c.phase
    case Opened => false
    case ExpectTlsNeg => x.tls.TlsFailed?
    case ExpectData =>
      x.read.ReadError? || x.read.Eof?
      || (x.read.Data? && !x.reallocOk && (c.allocCount + 1) * SMALL_BUFFER_SIZE < ESMTP_SIZE)
    case _ =>
      x.read.ReadError? || x.read.Eof?
      || (x.read.Data? && (|x.read.bytes| >= 1023 || HasPrefix(x.read.bytes, "quit")))
  }

  lemma CommandCloses(c: Connection, buf: string)
    ensures HandleCommand(c, buf).1 == Done <==> Parse(buf) == Some(QUIT)
    ensures HandleCommand(c, buf).1 != Error
  {
  }

  lemma BodyCloses(c: Connection, data: string, x: Input)
    requires ConnectionOk(c) && c.phase.ExpectData? && 1 <= |data| <= SMALL_BUFFER_SIZE
    ensures HandleData(c, data, x).1 == Error <==>
              !x.reallocOk && (c.allocCount + 1) * SMALL_BUFFER_SIZE < ESMTP_SIZE
    ensures HandleData(c, data, x).1 != Done
  {
  }

  lemma ClosesExactly(c: Connection, x: Input)
    requires ConnectionOk(c) && InputOk(x)
    ensures Served(c, x).None? <==> Closing(c, x)
  {
    if x.read.Data? && c.phase.ExpectData? {
      BodyCloses(c, x.read.bytes, x);
    } else if x.read.Data? && |x.read.bytes| < SMALL_BUFFER_SIZE - 1 {
      CommandCloses(c, ReadBuffer(x.read.bytes));
      QuitLine(x.read.bytes);
    }
  }

  /** What has been read begins with the keyword exactly if the zero-filled buffer does. */
  lemma QuitLine(bytes: string)
    requires |bytes| <= SMALL_BUFFER_SIZE
    ensures Parse(ReadBuffer(bytes)) == Some(QUIT) <==> HasPrefix(bytes, "quit")
  {
    var buf := ReadBuffer(bytes);
    ParseExact(buf, QUIT);
    SameWord(buf);
    QuitRead(bytes, buf);
  }

  lemma QuitRead(bytes: string, buf: string)
    requires |buf| >= 4 && bytes <= buf && (|bytes| < |buf| ==> buf[|bytes|] == '\0')
    ensures HasPrefix(buf, "quit") <==> HasPrefix(bytes, "quit")
  {
    if |bytes| >= 4 {
      assert forall k :: 0 <= k < 4 ==> buf[k] == bytes[k];
    } else {
      assert Lower(buf[|bytes|]) != Lower("quit"[|bytes|]);
    }
  }

  lemma SameWord(buf: string)
    ensures Begins(buf, QUIT) <==> HasPrefix(buf, "quit")
  {
    assert forall k :: 0 <= k < 4 ==> Lower("QUIT"[k]) == Lower("quit"[k]);
  }

  lemma ClosedBefore(socket: int, xs: seq<Input>, n: nat, k: nat)
    requires k < n <= |xs| && forall j :: 0 <= j < |xs| ==> InputOk(xs[j])
    ensures ClosedBy(socket, xs, k) <==> ClosedBy(socket, xs[..n], k)
  {
    assert xs[..n][..k] == xs[..k];
  }

  lemma LastTurn(socket: int, xs: seq<Input>)
    requires xs != [] && forall k :: 0 <= k < |xs| ==> InputOk(xs[k])
    ensures Play(socket, xs).open <==> Play(socket, xs[..|xs| - 1]).open && !ClosedBy(socket, xs, |xs| - 1)
  {
    var s := Play(socket, xs[..|xs| - 1]);
    if s.open {
      ClosesExactly(s.conn, xs[|xs| - 1]);
    }
  }

  /** A session is open exactly if none of its turns was a closing one. */
  lemma {:induction false} OpenExactly(socket: int, xs: seq<Input>)
    requires forall k :: 0 <= k < |xs| ==> InputOk(xs[k])
    ensures Play(socket, xs).open <==> forall k :: 0 <= k < |xs| ==> !ClosedBy(socket, xs, k)
    decreases |xs|
  {
    if xs != [] {
      var n := |xs| - 1;
      OpenExactly(socket, xs[..n]);
      LastTurn(socket, xs);
      forall k | 0 <= k < n
        ensures ClosedBy(socket, xs, k) <==> ClosedBy(socket, xs[..n], k)
      {
        ClosedBefore(socket, xs, n, k);
      }
    }
  }

  /** Turn `k` closes the session. */
  predicate ClosedBy(socket: int, xs: seq<Input>, k: nat)
    requires k < |xs| && forall j :: 0 <= j < |xs| ==> InputOk(xs[j])
  {
    var s := Play(socket, xs[..k]);
    s.open && Closing(s.conn, xs[k])
  }

  // ----- What the order does not promise -----

  function Reading(text: string): Input {
    Input(TlsOk, Data(text), true, "")
  }

  lemma ParsesData(buf: string)
    requires "DATA" <= buf
    ensures Parse(buf) == Some(DATA)
  {
    assert Begins(buf, DATA);
    ParseExact(buf, DATA);
  }

  lemma ParsesMail(buf: string)
    requires "MAIL FROM:" <= buf
    ensures Parse(buf) == Some(MAIL)
  {
    assert Begins(buf, MAIL);
    ParseExact(buf, MAIL);
  }

  lemma PlayOne(socket: int, xs: seq<Input>, s: Session, x: Input, d: Connection, e: Event)
    requires InputOk(x) && forall k :: 0 <= k < |xs| ==> InputOk(xs[k])
    requires Play(socket, xs) == s && s.open
    requires Served(s.conn, x) == Some(d) && EventOf(s.conn, x) == e
    ensures Play(socket, xs + [x]) == Session(true, d, s.log + [e])
  {
    assert (xs + [x])[..|xs|] == xs;
  }

  lemma EmptyBody(c: Connection, x: Input)
    requires ConnectionOk(c) && c.phase == ExpectData && c.buffer.None? && x == Reading("\r\n.\r\n")
    ensures Served(c, x) == Some(c.(phase := Greeted, allocCount := 0)) && EventOf(c, x) == DataDone
  {
    var buffer := CopyAndTerminate(Realloc(None, 1025, ""), 0, x.read.bytes);
    assert buffer[0..5] == x.read.bytes;
    assert EndsAt(buffer, 0);
  }

  lemma DataCommand(c: Connection, x: Input)
    requires ConnectionOk(c) && c.phase == ExpectAny && x == Reading("DATA")
    ensures Served(c, x) == Some(c.(phase := ExpectData)) && EventOf(c, x) == DataStart
  {
    ParsesData(ReadBuffer("DATA"));
  }

  lemma MailHandled(c: Connection, buf: string)
    requires c.phase == Greeted && Parse(buf) == Some(MAIL)
    ensures HandleCommand(c, buf) == (c.(phase := Mailing), Continue) && CommandEvent(c, buf) == MailOk
  {
  }

  lemma MailCommand(c: Connection, x: Input)
    requires ConnectionOk(c) && c.phase == Greeted
    requires x.read.Data? && "MAIL FROM:" <= x.read.bytes && |x.read.bytes| < SMALL_BUFFER_SIZE - 1
    ensures Served(c, x) == Some(c.(phase := Mailing)) && EventOf(c, x) == MailOk
  {
    ParsesMail(ReadBuffer(x.read.bytes));
    MailHandled(c, ReadBuffer(x.read.bytes));
  }

  /** MAIL is not always preceded by a greeting: in any session that has had none, DATA, an
      empty body and MAIL are all accepted, because DATA needs no sequence and a completed
      body counts as a greeting. */
  lemma MailWithoutGreeting(socket: int, xs: seq<Input>, data: Input, body: Input, mail: Input)
    requires forall k :: 0 <= k < |xs| ==> InputOk(xs[k])
    requires Play(socket, xs).open && Play(socket, xs).conn.phase == ExpectAny
    requires data == Reading("DATA") && body == Reading("\r\n.\r\n") && mail == Reading("MAIL FROM:<>")
    ensures Play(socket, xs + [data] + [body] + [mail]).log
        == Play(socket, xs).log + [DataStart] + [DataDone] + [MailOk]
  {
    EmptyData(socket, xs, data, body);
    ThenMail(socket, xs + [data] + [body], mail);
  }

  lemma InputsMore(xs: seq<Input>, x: Input, y: Input)
    requires InputOk(x) && InputOk(y) && forall k :: 0 <= k < |xs| ==> InputOk(xs[k])
    ensures forall k :: 0 <= k < |xs + [x] + [y]| ==> InputOk((xs + [x] + [y])[k])
  {
  }

  lemma BodyAfterData(c: Connection, d: Connection, e: Connection, body: Input)
    requires ConnectionOk(c) && c.phase == ExpectAny && body == Reading("\r\n.\r\n")
    requires d == c.(phase := ExpectData) && e == c.(phase := Greeted)
    ensures ConnectionOk(d) && InputOk(body) && Served(d, body) == Some(e) && EventOf(d, body) == DataDone
  {
    EmptyBody(d, body);
  }

  lemma EmptyData(socket: int, xs: seq<Input>, data: Input, body: Input)
    requires forall k :: 0 <= k < |xs| ==> InputOk(xs[k])
    requires Play(socket, xs).open && Play(socket, xs).conn.phase == ExpectAny
    requires data == Reading("DATA") && body == Reading("\r\n.\r\n")
    ensures forall k :: 0 <= k < |xs + [data] + [body]| ==> InputOk((xs + [data] + [body])[k])
    ensures var s := Play(socket, xs + [data] + [body]);
            s.open && s.conn.phase == Greeted && s.log == Play(socket, xs).log + [DataStart] + [DataDone]
  {
    var s := Play(socket, xs);
    var d, e := s.conn.(phase := ExpectData), s.conn.(phase := Greeted);
    DataCommand(s.conn, data);
    BodyAfterData(s.conn, d, e, body);
    InputsMore(xs, data, body);
    PlayTwo(socket, xs, s, data, d, DataStart, body, e, DataDone);
  }

  lemma ThenMail(socket: int, xs: seq<Input>, mail: Input)
    requires forall k :: 0 <= k < |xs| ==> InputOk(xs[k])
    requires Play(socket, xs).open && Play(socket, xs).conn.phase == Greeted && mail == Reading("MAIL FROM:<>")
    ensures Play(socket, xs + [mail]).log == Play(socket, xs).log + [MailOk]
  {
    var s := Play(socket, xs);
    MailCommand(s.conn, mail);
    PlayOne(socket, xs, s, mail, s.conn.(phase := Mailing), MailOk);
  }

  /** Such a session: the banner has been sent and nothing else has happened. */
  lemma BannerFirst(socket: int, x: Input)
    requires InputOk(x)
    ensures Play(socket, [] + [x]) == Session(true, InitConnection(SMTP, socket).(phase := ExpectAny), [] + [Banner])
  {
    PlayOne(socket, [], Session(true, InitConnection(SMTP, socket), []), x,
        InitConnection(SMTP, socket).(phase := ExpectAny), Banner);
  }

  lemma PlayTwo(socket: int, xs: seq<Input>, s: Session, x: Input, c: Connection, e: Event, y: Input, d: Connection,
      f: Event)
    requires InputOk(x) && InputOk(y) && (forall k :: 0 <= k < |xs| ==> InputOk(xs[k])) && ConnectionOk(c)
    requires Play(socket, xs) == s && s.open
    requires Served(s.conn, x) == Some(c) && EventOf(s.conn, x) == e
    requires Served(c, y) == Some(d) && EventOf(c, y) == f
    ensures Play(socket, xs + [x] + [y]) == Session(true, d, s.log + [e] + [f])
  {
    PlayOne(socket, xs, s, x, c, e);
    PlayOne(socket, xs + [x], Session(true, c, s.log + [e]), y, d, f);
  }
}
