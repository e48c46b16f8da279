/** Properties of whole SMTP sessions: where DATA ends, and in which order commands are accepted. */
module SmtpSession {
  import opened Bits
  import opened Smtp

  // ----- DATA -----

  function Concat(parts: seq<string>): string {
    if parts == [] then "" else Concat(parts[..|parts| - 1]) + parts[|parts| - 1]
  }

  /** Reads of 1 to 1024 bytes, each with a successful reallocation. */
  predicate GoodRead(x: Input) {
    x.read.Data? && 1 <= |x.read.bytes| <= SMALL_BUFFER_SIZE && x.reallocOk
  }

  function Texts(xs: seq<Input>): seq<string>
    requires forall k :: 0 <= k < |xs| ==> GoodRead(xs[k])
  {
    seq(|xs|, k requires 0 <= k < |xs| && GoodRead(xs[k]) => xs[k].read.bytes)
  }

  /** The buffer holds exactly what the reads `got` have delivered. */
  predicate Holds(c: Connection, got: seq<string>) {
    && ConnectionOk(c) && c.phase.ExpectData?
    && c.allocCount == |got| && c.bufferEnd == |Concat(got)|
    && (c.buffer.Some? ==> c.buffer.value[..c.bufferEnd] == Concat(got))
  }

  /** DATA opens an empty buffer, in any command phase. */
  lemma DataBegins(c: Connection, x: Input)
    requires ConnectionOk(c) && InputOk(x) && x.read.Data? && |x.read.bytes| < SMALL_BUFFER_SIZE - 1
    requires c.phase in {ExpectAny, Greeted, Mailing, Rcpt} && Parse(ReadBuffer(x.read.bytes)) == Some(DATA)
    ensures Handle(c, x).1 == Continue && Holds(Handle(c, x).0, [])
  {
  }

  /** The scan sees the data up to the terminating NUL and nothing behind it. */
  lemma ScanStopsAtEnd(buf: string, end: nat)
    requires end < |buf| && buf[end] == '\0'
    ensures Ended(buf) <==> Ended(buf[..end])
  {
    var msg := buf[..end];
    if Ended(buf) {
      var i: nat :| i < |buf| && EndsAt(buf, i) && forall k :: 0 <= k < i ==> buf[k] != '\0';
      NoNulInside(buf, i, end);
      assert msg[i..i + 5] == buf[i..i + 5];
      assert EndsAt(msg, i);
    }
    if Ended(msg) {
      var i: nat :| i < |msg| && EndsAt(msg, i) && forall k :: 0 <= k < i ==> msg[k] != '\0';
      assert buf[i..i + 5] == msg[i..i + 5];
      assert EndsAt(buf, i);
      assert forall k :: 0 <= k < i ==> buf[k] == msg[k];
    }
  }

  lemma NoNulInside(buf: string, i: nat, end: nat)
    requires EndsAt(buf, i) && i <= end < |buf| && buf[end] == '\0'
    ensures i + 5 <= end
  {
    assert forall j :: i <= j < i + 5 ==> buf[j] == buf[i..i + 5][j - i];
  }

  const MAX_READS: nat := 10239

  /** One more read: accepted if the data now ends, refused if it is one too many. */
  predicate ReadOutcome(got: nat, now: seq<string>, d: Connection, r: Result) {
    if got >= MAX_READS then r == Reset && d.phase == ExpectData
    else if Ended(Concat(now)) then r == Reset && d.phase == Greeted
    else r == Continue && Holds(d, now)
  }

  /** The buffer after a read holds everything read so far and is terminated behind it. */
  lemma Appended(buffer: Option<string>, end: nat, size: nat, fill: string, got: seq<string>, text: string)
    requires end == |Concat(got)| && end + |text| < size
    requires buffer.Some? ==> end <= |buffer.value| <= size && buffer.value[..end] == Concat(got)
    requires buffer.None? ==> end == 0
    ensures var b := CopyAndTerminate(Realloc(buffer, size, fill), end, text);
            && b[..end + |text|] == Concat(got + [text])
            && (Ended(b) <==> Ended(Concat(got + [text])))
  {
    var now := got + [text];
    assert now[..|now| - 1] == got;
    var grown := Realloc(buffer, size, fill);
    var b := CopyAndTerminate(grown, end, text);
    assert grown[..end] == Concat(got);
    assert b[..end + |text|] == b[..end] + b[end..end + |text|];
    ScanStopsAtEnd(b, end + |text|);
  }

  lemma OneRead(c: Connection, got: seq<string>, x: Input)
    requires Holds(c, got) && GoodRead(x)
    ensures ReadOutcome(|got|, got + [x.read.bytes], Handle(c, x).0, Handle(c, x).1)
  {
    var text := x.read.bytes;
    assert |Concat(got + [text])| == |Concat(got)| + |text| by {
      assert (got + [text])[..|got|] == got;
    }
    assert Handle(c, x) == HandleData(c, text, x);
    if |got| < MAX_READS {
      Appended(c.buffer, c.bufferEnd, (c.allocCount + 1) * SMALL_BUFFER_SIZE + 1, x.fill, got, text);
    }
  }

  datatype Delivery = Delivery(used: nat, conn: Connection, result: Result)

  function OneMore(rest: Delivery): Delivery {
    rest.(used := rest.used + 1)
  }

  /** Serves the reads one after another until the handler does not continue. */
  function Deliver(c: Connection, xs: seq<Input>): Delivery
    requires ConnectionOk(c) && forall k :: 0 <= k < |xs| ==> GoodRead(xs[k])
    decreases |xs|
  {
    if xs == [] then Delivery(0, c, Continue)
    else
      assert GoodRead(xs[0]);
      var (d, r) := Handle(c, xs[0]);
      if r != Continue then Delivery(1, d, r)
      else
        ServedOk(c, xs[0]);
        OneMore(Deliver(d, xs[1..]))
  }

  /** After `k` reads the data contains the terminator before any NUL. */
  predicate EndedAfter(texts: seq<string>, k: nat) {
    k <= |texts| && Ended(Concat(texts[..k]))
  }

  /** What becomes of reads delivered after `|got|` earlier ones, none of which ended it. */
  ghost predicate Delivered(got: nat, texts: seq<string>, d: Delivery) {
    var n := got + d.used;
    && n <= |texts|
    && (forall k :: got < k < n ==> !EndedAfter(texts, k))
    && (d.result == Reset && d.conn.phase == Greeted ==> got < n <= MAX_READS && EndedAfter(texts, n))
    && (d.result == Reset && d.conn.phase != Greeted ==>
          n == MAX_READS + 1 && !(n - 1 > got && EndedAfter(texts, n - 1)))
    && (d.result != Reset ==>
          && d.result == Continue && n == |texts| <= MAX_READS && Holds(d.conn, texts)
          && !(n > got && EndedAfter(texts, n)))
  }

  /** A read that neither ends the data nor is refused leaves the verdict to the rest. */
  lemma DeliveredMore(got: nat, texts: seq<string>, rest: Delivery)
    requires got < |texts| && got < MAX_READS
    requires !EndedAfter(texts, got + 1)
    requires Delivered(got + 1, texts, rest)
    ensures Delivered(got, texts, OneMore(rest))
  {
  }

  lemma DeliveredLast(got: nat, texts: seq<string>, d: Connection, r: Result)
    requires got < |texts| && got <= MAX_READS && r != Continue
    requires ReadOutcome(got, texts[..got + 1], d, r)
    ensures Delivered(got, texts, Delivery(1, d, r))
  {
  }

  lemma TextsStep(got: seq<string>, xs: seq<Input>, texts: seq<string>, now: seq<string>)
    requires xs != [] && (forall k :: 0 <= k < |xs| ==> GoodRead(xs[k])) && GoodRead(xs[0])
    requires texts == got + Texts(xs) && now == got + [xs[0].read.bytes]
    ensures texts == now + Texts(xs[1..]) && |got| < |texts| && texts[..|got| + 1] == now
  {
  }

  lemma {:induction false} DeliverAll(c: Connection, got: seq<string>, xs: seq<Input>, texts: seq<string>)
    requires forall k :: 0 <= k < |xs| ==> GoodRead(xs[k])
    requires Holds(c, got) && |got| <= MAX_READS && texts == got + Texts(xs)
    ensures Delivered(|got|, texts, Deliver(c, xs))
    decreases |xs|, 1
  {
    if xs == [] {
      assert texts == got;
    } else {
      assert GoodRead(xs[0]);
      OneRead(c, got, xs[0]);
      var d, r := Handle(c, xs[0]).0, Handle(c, xs[0]).1;
      if r == Continue {
        DeliverOn(got, xs, texts, d);
      } else {
        DeliverStop(got, xs, texts, d, r);
      }
    }
  }

  /** The rest of a delivery whose first read left `d`. */
  lemma {:induction false} DeliverOn(got: seq<string>, xs: seq<Input>, texts: seq<string>, d: Connection)
    requires forall k :: 0 <= k < |xs| ==> GoodRead(xs[k])
    requires |got| < MAX_READS && xs != [] && GoodRead(xs[0]) && texts == got + Texts(xs)
    requires Holds(d, got + [xs[0].read.bytes]) && !Ended(Concat(got + [xs[0].read.bytes]))
    ensures Delivered(|got|, texts, OneMore(Deliver(d, xs[1..])))
    decreases |xs|, 0
  {
    var now := got + [xs[0].read.bytes];
    TextsStep(got, xs, texts, now);
    DeliverAll(d, now, xs[1..], texts);
    DeliveredMore(|got|, texts, Deliver(d, xs[1..]));
  }

  lemma DeliverStop(got: seq<string>, xs: seq<Input>, texts: seq<string>, d: Connection, r: Result)
    requires forall k :: 0 <= k < |xs| ==> GoodRead(xs[k])
    requires |got| <= MAX_READS && xs != [] && GoodRead(xs[0]) && texts == got + Texts(xs)
    requires r != Continue && ReadOutcome(|got|, got + [xs[0].read.bytes], d, r)
    ensures Delivered(|got|, texts, Delivery(1, d, r))
  {
    TextsStep(got, xs, texts, got + [xs[0].read.bytes]);
    DeliveredLast(|got|, texts, d, r);
  }

  predicate Accepted(d: Delivery) {
    d.result == Reset && d.conn.phase == Greeted
  }

  /** The data is accepted right after the first of the first 10239 reads by which it has
      ended; without one, the 10240th read is refused, and until then the handler continues
      with everything read so far in the buffer. */
  ghost predicate Verdict(texts: seq<string>, d: Delivery) {
    && (Accepted(d) <==> exists k: nat :: 1 <= k <= MAX_READS && EndedAfter(texts, k))
    && (Accepted(d) ==> EndedAfter(texts, d.used) && forall k :: 1 <= k < d.used ==> !EndedAfter(texts, k))
    && (d.result == Reset && !Accepted(d) ==> d.used == MAX_READS + 1)
    && (d.result != Reset ==> d.result == Continue && d.used == |texts| <= MAX_READS && Holds(d.conn, texts))
  }

  lemma VerdictOf(texts: seq<string>, d: Delivery)
    requires Delivered(0, texts, d)
    ensures Verdict(texts, d)
  {
  }

  lemma ReadsAccepted(c: Connection, xs: seq<Input>)
    requires forall k :: 0 <= k < |xs| ==> GoodRead(xs[k])
    requires Holds(c, [])
    ensures Verdict(Texts(xs), Deliver(c, xs))
  {
    assert [] + Texts(xs) == Texts(xs);
    DeliverAll(c, [], xs, Texts(xs));
    VerdictOf(Texts(xs), Deliver(c, xs));
  }

  /** A turn of a connection that receives data: a read, or nothing to read yet. */
  predicate DataTurn(x: Input) {
    GoodRead(x) || x.read.WouldBlock?
  }

  /** The turns in which something was read. */
  function DataReads(xs: seq<Input>): (found: seq<Input>)
    requires forall k :: 0 <= k < |xs| ==> DataTurn(xs[k])
    ensures forall k :: 0 <= k < |found| ==> GoodRead(found[k])
  {
    if xs == [] then []
    else
      assert DataTurn(xs[0]);
      if xs[0].read.WouldBlock? then DataReads(xs[1..]) else [xs[0]] + DataReads(xs[1..])
  }

  /** Serves the turns one after another until the handler does not continue, and counts the
      reads. */
  function DeliverTurns(c: Connection, xs: seq<Input>): Delivery
    requires ConnectionOk(c) && forall k :: 0 <= k < |xs| ==> DataTurn(xs[k])
    decreases |xs|
  {
    if xs == [] then Delivery(0, c, Continue)
    else
      assert DataTurn(xs[0]);
      ServedOk(c, xs[0]);
      var (d, r) := Handle(c, xs[0]);
      var now := if xs[0].read.WouldBlock? then 0 else 1;
      if r != Continue then Delivery(now, d, r)
      else
        var rest := DeliverTurns(d, xs[1..]);
        rest.(used := now + rest.used)
  }

  /** A connection that receives data goes on doing so while the handler continues. */
  lemma StaysInData(c: Connection, x: Input)
    requires ConnectionOk(c) && c.phase.ExpectData? && DataTurn(x) && Handle(c, x).1 == Continue
    ensures ConnectionOk(Handle(c, x).0) && Handle(c, x).0.phase.ExpectData?
    ensures x.read.WouldBlock? ==> Handle(c, x).0 == c
  {
    ServedOk(c, x);
  }

  /** Turns with nothing to read make no difference. */
  lemma {:induction false} WaitsIgnored(c: Connection, xs: seq<Input>)
    requires ConnectionOk(c) && c.phase.ExpectData? && forall k :: 0 <= k < |xs| ==> DataTurn(xs[k])
    ensures DeliverTurns(c, xs) == Deliver(c, DataReads(xs))
    decreases |xs|
  {
    if xs != [] {
      var x, rest := xs[0], DataReads(xs[1..]);
      assert DataTurn(x);
      assert ([x] + rest)[1..] == rest;
      if Handle(c, x).1 == Continue {
        StaysInData(c, x);
        WaitsIgnored(Handle(c, x).0, xs[1..]);
      }
    }
  }

  /** For any split of a body into reads of 1 to 1024 bytes, with any turns in between in which
      there is nothing to read. */
  lemma DataAccepted(c: Connection, xs: seq<Input>)
    requires forall k :: 0 <= k < |xs| ==> DataTurn(xs[k])
    requires Holds(c, [])
    ensures Verdict(Texts(DataReads(xs)), DeliverTurns(c, xs))
  {
    WaitsIgnored(c, xs);
    ReadsAccepted(c, DataReads(xs));
  }
}
