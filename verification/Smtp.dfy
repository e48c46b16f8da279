/** Femail's SMTP session: the connection record, the handler that serves one read, and the
    properties of whole sessions. Characters are bytes; `'\0'` ends a C string. */
module Smtp {
  import opened Bits

  const SMALL_BUFFER_SIZE: nat := 1024
  const ESMTP_SIZE: nat := 10485760
  const DOMAIN_MAX_SIZE: nat := 255

  datatype Kind = SMTP | SMTPS | STARTTLS | HTTP | HTTPS

  datatype Phase = Opened | ExpectAny | Greeted | Mailing | Rcpt | ExpectTlsNeg | ExpectData | HttpOpened

  /** `buffer` is the allocated DATA buffer, as long as its allocation. */
  datatype Connection = Connection(
    live: bool,
    kind: Kind,
    phase: Phase,
    socket: int,
    allocCount: nat,
    bufferEnd: nat,
    buffer: Option<string>)

  datatype Result = Done | Continue | Reset | Error

  datatype TlsResult = TlsOk | TlsAgain | TlsFailed

  datatype ReadResult = Data(bytes: string) | WouldBlock | ReadError | Eof

  /** What the outside world supplies to one call of the handler; `fill` is what freshly
      reallocated memory happens to hold. */
  datatype Input = Input(tls: TlsResult, read: ReadResult, reallocOk: bool, fill: string)

  datatype Command = NOOP | QUIT | RSET | DATA | HELP | HELO | EHLO | MAIL | RCPT | VRFY | EXPN | STARTTLS_

  /** `connection_init`. */
  function InitConnection(kind: Kind, socket: int): Connection {
    Connection(true, kind, if kind.HTTP? || kind.HTTPS? then HttpOpened else Opened, socket, 0, 0, None)
  }

  /** `reset_connection`. */
  function ResetConnection(c: Connection): Connection {
    c.(live := true, phase := if c.phase.Greeted? then Greeted else ExpectAny, allocCount := 0, bufferEnd := 0,
        buffer := None)
  }

  // ----- Strings -----

  function Lower(c: char): char {
    if 'A' <= c <= 'Z' then (c as int + 32) as char else c
  }

  /** `strncasecmp(buf, word, |word|) == 0` for a word without NUL. */
  predicate HasPrefix(buf: string, word: string) {
    |word| <= |buf| && forall k :: 0 <= k < |word| ==> Lower(buf[k]) == Lower(word[k])
  }

  /** What a line must begin with, in any case, to be the command. */
  function Keyword(c: Command): (w: string)
    ensures |w| >= 4
  {
    match c
    case NOOP => "NOOP"
    case QUIT => "QUIT"
    case RSET => "RSET"
    case DATA => "DATA"
    case HELP => "HELP"
    case HELO => "HELO "
    case EHLO => "EHLO "
    case MAIL => "MAIL FROM:"
    case RCPT => "RCPT TO:"
    case VRFY => "VRFY "
    case EXPN => "EXPN "
    case STARTTLS_ => "STARTTLS"
  }

  predicate Begins(buf: string, c: Command) {
    HasPrefix(buf, Keyword(c))
  }

  /** `parse_client_command`, tests in the order of the source. */
  function Parse(buf: string): Option<Command> {
    if Begins(buf, NOOP) then Some(NOOP)
    else if Begins(buf, QUIT) then Some(QUIT)
    else if Begins(buf, RSET) then Some(RSET)
    else if Begins(buf, DATA) then Some(DATA)
    else if Begins(buf, HELP) then Some(HELP)
    else if Begins(buf, HELO) then Some(HELO)
    else if Begins(buf, EHLO) then Some(EHLO)
    else if Begins(buf, MAIL) then Some(MAIL)
    else if Begins(buf, RCPT) then Some(RCPT)
    else if Begins(buf, VRFY) then Some(VRFY)
    else if Begins(buf, EXPN) then Some(EXPN)
    else if Begins(buf, STARTTLS_) then Some(STARTTLS_)
    else None
  }

  /** The first, second and fourth letter of a keyword, which tell all keywords apart. */
  function Letters(w: string): string
    requires |w| >= 4
  {
    [Lower(w[0]), Lower(w[1]), Lower(w[3])]
  }

  lemma SameLetters(buf: string, w: string)
    requires HasPrefix(buf, w) && |w| >= 4
    ensures Letters(buf) == Letters(w)
  {
  }

  lemma KeywordsDiffer(c: Command, d: Command)
    requires c != d
    ensures Letters(Keyword(c)) != Letters(Keyword(d))
  {
    assert Letters(Keyword(c))[0] != Letters(Keyword(d))[0] || Letters(Keyword(c))[1] != Letters(Keyword(d))[1]
        || Letters(Keyword(c))[2] != Letters(Keyword(d))[2];
  }

  /** No line is two commands. */
  lemma OneCommand(buf: string, c: Command, d: Command)
    requires Begins(buf, c) && Begins(buf, d)
    ensures c == d
  {
    SameLetters(buf, Keyword(c));
    SameLetters(buf, Keyword(d));
    if c != d {
      KeywordsDiffer(c, d);
    }
  }

  lemma ParseSound(buf: string, c: Command)
    requires Parse(buf) == Some(c)
    ensures Begins(buf, c) == true
  {
  }

  lemma ParseTotal(buf: string, c: Command)
    requires Begins(buf, c)
    ensures Parse(buf).Some?
  {
  }

  /** A line is a command exactly if it begins with the keyword: the order of the tests does
      not matter. */
  lemma ParseExact(buf: string, c: Command)
    ensures Parse(buf) == Some(c) <==> Begins(buf, c)
  {
    if Parse(buf) == Some(c) {
      ParseSound(buf, c);
    }
    if Begins(buf, c) {
      ParseTotal(buf, c);
      ParseSound(buf, Parse(buf).value);
      OneCommand(buf, c, Parse(buf).value);
    }
  }

  /** `parse_client_command` with the words it compares. */
  method ParseClientCommand(buf: string) returns (command: Option<Command>)
    ensures command == Parse(buf)
  {
    if HasPrefix(buf, "NOOP") {
      return Some(NOOP);
    } else if HasPrefix(buf, "QUIT") {
      return Some(QUIT);
    } else if HasPrefix(buf, "RSET") {
      return Some(RSET);
    } else if HasPrefix(buf, "DATA") {
      return Some(DATA);
    } else if HasPrefix(buf, "HELP") {
      return Some(HELP);
    } else if HasPrefix(buf, "HELO ") {
      return Some(HELO);
    } else if HasPrefix(buf, "EHLO ") {
      return Some(EHLO);
    } else if HasPrefix(buf, "MAIL FROM:") {
      return Some(MAIL);
    } else if HasPrefix(buf, "RCPT TO:") {
      return Some(RCPT);
    } else if HasPrefix(buf, "VRFY ") {
      return Some(VRFY);
    } else if HasPrefix(buf, "EXPN ") {
      return Some(EXPN);
    } else if HasPrefix(buf, "STARTTLS") {
      return Some(STARTTLS_);
    } else {
      return None;
    }
  }

  /** The same but for the case of its letters. */
  predicate SameButCase(a: string, b: string) {
    |a| == |b| && forall k :: 0 <= k < |a| ==> a[k] == b[k] || ('A' <= a[k] <= 'Z' && b[k] as int == a[k] as int + 32)
  }

  lemma SamePrefix(a: string, b: string, word: string)
    requires SameButCase(a, b)
    ensures HasPrefix(a, word) <==> HasPrefix(b, word)
  {
    assert forall k :: 0 <= k < |a| ==> Lower(a[k]) == Lower(b[k]);
  }

  /** The case of a line's letters does not matter. */
  lemma CaseIgnored(a: string, b: string)
    requires SameButCase(a, b)
    ensures Parse(a) == Parse(b)
  {
    if Parse(a).Some? {
      var c := Parse(a).value;
      ParseExact(a, c);
      SamePrefix(a, b, Keyword(c));
      ParseExact(b, c);
    } else if Parse(b).Some? {
      var c := Parse(b).value;
      ParseExact(b, c);
      SamePrefix(a, b, Keyword(c));
      ParseExact(a, c);
    }
  }

  predicate EndsWord(c: char) {
    c == '\0' || c == ' ' || c == '\t' || c == '\r' || c == '\n'
  }

  /** The word at `from` is at most `max` characters long. */
  predicate WordFits(buf: string, from: nat, max: nat) {
    exists j :: from <= j <= from + max && j < |buf| && EndsWord(buf[j])
  }

  /** The word at `from` is `buf[from..from + n]`. */
  predicate IsWord(buf: string, from: nat, n: nat) {
    && from + n < |buf| && EndsWord(buf[from + n])
    && forall j :: from <= j < from + n ==> !EndsWord(buf[j])
  }

  /** The characters from the start of the domain array on, once a word of `n` characters has
      been moved there: the word, its terminator, and what was there before. */
  function DomainMoved(buf: string, from: nat, n: nat, mem: string): string
    requires from + n <= |buf| && n < |mem|
  {
    buf[from..from + n] + ['\0'] + mem[n + 1..]
  }

  /** `move_client_mail_domain`. `mem` starts with the domain array, which has `max` characters,
      and has one more character, the one behind it. */
  method MoveClientMailDomain(buf: string, from: nat, max: nat, mem: array<char>) returns (ok: bool, offset: nat)
    requires from < |buf| && buf[|buf| - 1] == '\0' && mem.Length == max + 1
    modifies mem
    ensures ok <==> WordFits(buf, from, max)
    ensures ok ==> IsWord(buf, from, offset) && offset <= max
                   && mem[..] == DomainMoved(buf, from, offset, old(mem[..]))
    ensures !ok ==> from + max <= |buf| && mem[..] == buf[from..from + max] + [old(mem[max])]
  {
    offset := 0;
    while !EndsWord(buf[from + offset])
      invariant 0 <= offset <= max && from + offset < |buf|
      invariant forall k :: 0 <= k < offset ==> mem[k] == buf[from + k]
      invariant forall k :: offset <= k <= max ==> mem[k] == old(mem[k])
      invariant forall j :: from <= j < from + offset ==> !EndsWord(buf[j])
      decreases |buf| - offset
    {
      if offset == max {
        return false, offset;
      }
      mem[offset] := buf[from + offset];
      offset := offset + 1;
    }
    mem[offset] := '\0';
    return true, offset;
  }

  /** An accepted word writes behind the array of `max` characters exactly if it has `max` of
      them, and otherwise leaves what is there. */
  lemma TerminatorInside(buf: string, from: nat, n: nat, max: nat, mem: string)
    requires IsWord(buf, from, n) && WordFits(buf, from, max) && |mem| == max + 1 > 1
    ensures n <= max
    ensures DomainMoved(buf, from, n, mem)[max] == if WordFits(buf, from, max - 1) then mem[max] else '\0'
  {
    assert n < max ==> EndsWord(buf[from + n]);
  }

  /** A domain of 255 letters is accepted and its terminator goes behind the 255 characters. */
  lemma LongDomain(buf: string, mem: string)
    requires buf == "HELO " + seq(DOMAIN_MAX_SIZE, _ => 'a') + ['\0'] && |mem| == DOMAIN_MAX_SIZE + 1
    ensures IsWord(buf, 5, DOMAIN_MAX_SIZE) && WordFits(buf, 5, DOMAIN_MAX_SIZE)
    ensures !WordFits(buf, 5, DOMAIN_MAX_SIZE - 1)
    ensures DomainMoved(buf, 5, DOMAIN_MAX_SIZE, mem)[DOMAIN_MAX_SIZE] == '\0'
  {
    assert EndsWord(buf[5 + DOMAIN_MAX_SIZE]);
  }

  const TERMINATOR: string := "\r\n.\r\n"

  /** The terminator stands at `i`. */
  predicate EndsAt(s: string, i: nat) {
    i + 5 <= |s| && s[i..i + 5] == TERMINATOR
  }

  /** CRLF.CRLF occurs before any NUL. */
  predicate Ended(s: string) {
    exists i: nat :: i < |s| && EndsAt(s, i) && forall k :: 0 <= k < i ==> s[k] != '\0'
  }

  /** `strncmp(str + offset, "\\r\\n.\\r\\n", 5) == 0`, reading no further than the first
      difference or NUL. */
  method IsTerminator(str: string, offset: nat) returns (eq: bool)
    requires offset < |str| && '\0' in str[offset..]
    ensures eq <==> EndsAt(str, offset)
  {
    var k := 0;
    while k < 5
      invariant 0 <= k <= 5 && offset + k <= |str|
      invariant forall j :: 0 <= j < k ==> str[offset + j] == TERMINATOR[j]
    {
      MoreToRead(str, offset, k);
      if str[offset + k] != TERMINATOR[k] {
        EndsAtIs(str, offset);
        return false;
      }
      k := k + 1;
    }
    EndsAtIs(str, offset);
    return true;
  }

  lemma EndsAtIs(s: string, i: nat)
    ensures EndsAt(s, i) <==> i + 5 <= |s| && forall j :: 0 <= j < 5 ==> s[i + j] == TERMINATOR[j]
  {
    if i + 5 <= |s| {
      var slice := s[i..i + 5];
      assert |slice| == |TERMINATOR| && forall j :: 0 <= j < 5 ==> slice[j] == s[i + j];
    }
  }

  lemma MoreToRead(str: string, offset: nat, k: nat)
    requires k < 5 && offset + k <= |str| && '\0' in str[offset..]
    requires forall j :: 0 <= j < k ==> str[offset + j] == TERMINATOR[j]
    ensures offset + k < |str|
  {
    forall i | offset <= i < offset + k
      ensures str[i] != '\0'
    {
      assert str[offset + (i - offset)] == TERMINATOR[i - offset];
    }
    var z :| 0 <= z < |str[offset..]| && str[offset..][z] == '\0';
    assert str[offset + z] == '\0';
  }

  lemma EndsAtCR(s: string, i: nat)
    ensures EndsAt(s, i) ==> s[i] == '\r'
  {
    assert EndsAt(s, i) ==> s[i..i + 5][0] == '\r';
  }

  /** `found_crlf_end` on NUL-terminated memory. */
  method FoundCrlfEnd(str: string) returns (found: bool)
    requires '\0' in str
    ensures found <==> Ended(str)
  {
    var offset: nat := 0;
    while str[offset] != '\0'
      invariant offset < |str| && '\0' in str[offset..]
      invariant forall k :: 0 <= k < offset ==> str[k] != '\0' && !EndsAt(str, k)
      decreases |str| - offset
    {
      if str[offset] == '\r' {
        var eq := IsTerminator(str, offset);
        if eq {
          return true;
        }
      }
      EndsAtCR(str, offset);
      assert str[offset..] == [str[offset]] + str[offset + 1..];
      offset := offset + 1;
    }
    EndsAtCR(str, offset);
    return false;
  }

  // ----- The handler -----

  /** A read fits the stack buffer and returns at least one byte. */
  predicate InputOk(x: Input) {
    x.read.Data? ==> 1 <= |x.read.bytes| <= SMALL_BUFFER_SIZE
  }

  /** What every queued connection satisfies: outside the DATA phase there is no buffer and
      the counters are zero; inside it the buffer has 1024 bytes per read and one more, and
      is terminated where the data ends. */
  predicate ConnectionOk(c: Connection) {
    && c.live
    && (!c.phase.ExpectData? ==> c.allocCount == 0 && c.bufferEnd == 0 && c.buffer.None?)
    && (c.phase.ExpectData? ==>
          && c.bufferEnd <= c.allocCount * SMALL_BUFFER_SIZE
          && (c.buffer.None? <==> c.allocCount == 0)
          && (c.buffer.Some? ==>
                && |c.buffer.value| == c.allocCount * SMALL_BUFFER_SIZE + 1
                && c.buffer.value[c.bufferEnd] == '\0'))
  }

  function Fill(fill: string, k: nat): char {
    if k < |fill| then fill[k] else '\0'
  }

  /** `realloc` to a size no smaller: the old bytes stay, the rest is whatever was there. */
  function Realloc(buffer: Option<string>, size: nat, fill: string): (r: string)
    requires buffer.Some? ==> |buffer.value| <= size
    ensures |r| == size
    ensures buffer.Some? ==> buffer.value <= r
  {
    var kept := if buffer.Some? then buffer.value else "";
    kept + seq(size - |kept|, k requires 0 <= k => Fill(fill, k))
  }

  /** Copies `data` to `buffer + at` and terminates it. */
  function CopyAndTerminate(buffer: string, at: nat, data: string): (r: string)
    requires at + |data| < |buffer|
    ensures |r| == |buffer| && r[..at] == buffer[..at] && r[at..at + |data|] == data && r[at + |data|] == '\0'
  {
    buffer[..at] + data + ['\0'] + buffer[at + |data| + 1..]
  }

  /** The DATA branch for one read. */
  function HandleData(c: Connection, data: string, x: Input): (Connection, Result)
    requires ConnectionOk(c) && c.phase.ExpectData? && 1 <= |data| <= SMALL_BUFFER_SIZE
  {
    var n := c.allocCount + 1;
    var size := n * SMALL_BUFFER_SIZE + 1;
    if size > ESMTP_SIZE then (c.(allocCount := n), Reset)
    else if !x.reallocOk then (c.(allocCount := n, buffer := None), Error)
    else
      var buffer := CopyAndTerminate(Realloc(c.buffer, size, x.fill), c.bufferEnd, data);
      var d := c.(allocCount := n, buffer := Some(buffer), bufferEnd := c.bufferEnd + |data|);
      if Ended(buffer) then (d.(phase := Greeted), Reset) else (d, Continue)
  }

  /** The read buffer after a read: zero-initialized, so the command is terminated. */
  function ReadBuffer(data: string): string
    requires |data| <= SMALL_BUFFER_SIZE
  {
    data + seq(SMALL_BUFFER_SIZE - |data|, _ => '\0')
  }

  /** A command in a command phase. */
  function HandleCommand(c: Connection, buf: string): (Connection, Result) {
    match Parse(buf)
    case None => (c, Continue)
    case Some(QUIT) => (c, Done)
    case Some(RSET) => (c, Reset)
    case Some(DATA) => (c.(phase := ExpectData), Continue)
    case Some(HELO) => (if WordFits(buf, 5, DOMAIN_MAX_SIZE) then c.(phase := Greeted) else c, Continue)
    case Some(EHLO) => (if WordFits(buf, 5, DOMAIN_MAX_SIZE) then c.(phase := Greeted) else c, Continue)
    case Some(MAIL) => (if c.phase.ExpectAny? then c else c.(phase := Mailing), Continue)
    case Some(RCPT) => (if c.phase.Mailing? || c.phase.Rcpt? then c.(phase := Rcpt) else c, Continue)
    case Some(STARTTLS_) => (c.(phase := ExpectTlsNeg), Continue)
    case Some(_) => (c, Continue)
  }

  /** `smtp_handler`. */
  function Handle(c: Connection, x: Input): (Connection, Result)
    requires ConnectionOk(c) && InputOk(x)
  {
    if !c.live then (c, Done)
    else if c.phase.Opened? then (c.(phase := ExpectAny), Continue)
    else if c.phase.ExpectTlsNeg? then
      match x.tls
      case TlsOk => (c.(phase := ExpectAny), Continue)
      case TlsAgain => (c, Continue)
      case TlsFailed => (c, Error)
    else
      match x.read
      case WouldBlock => (c, Continue)
      case ReadError => (c, Error)
      case Eof => (c, Error)
      case Data(bytes) =>
        if |bytes| >= SMALL_BUFFER_SIZE - 1 && !c.phase.ExpectData? then (c, Error)
        else if c.phase.ExpectData? then HandleData(c, bytes, x)
        else HandleCommand(c, ReadBuffer(bytes))
  }

  /** The DATA branch statement by statement: count, grow, copy, terminate, scan. */
  method ReceiveData(conn: Connection, data: string, x: Input) returns (c: Connection, r: Result)
    requires ConnectionOk(conn) && conn.phase.ExpectData? && 1 <= |data| <= SMALL_BUFFER_SIZE
    ensures (c, r) == HandleData(conn, data, x)
  {
    c := conn.(allocCount := conn.allocCount + 1);
    var size := c.allocCount * SMALL_BUFFER_SIZE + 1;
    if size > ESMTP_SIZE {
      return c, Reset;
    }
    c := c.(buffer := if x.reallocOk then Some(Realloc(c.buffer, size, x.fill)) else None);
    if c.buffer.None? {
      return c, Error;
    }
    c := c.(buffer := Some(CopyAndTerminate(c.buffer.value, c.bufferEnd, data)));
    c := c.(bufferEnd := c.bufferEnd + |data|);
    var found := FoundCrlfEnd(c.buffer.value);
    if found {
      c := c.(phase := Greeted);
      return c, Reset;
    }
    return c, Continue;
  }

  method Execute(conn: Connection, buf: string) returns (c: Connection, r: Result)
    requires 5 < |buf| && buf[|buf| - 1] == '\0'
    ensures (c, r) == HandleCommand(conn, buf)
  {
    var mem := new char[DOMAIN_MAX_SIZE + 1];
    c, r := conn, Continue;
    var command := ParseClientCommand(buf);
    match command {
      case None =>
      case Some(QUIT) => r := Done;
      case Some(RSET) => r := Reset;
      case Some(DATA) => c := c.(phase := ExpectData);
      case Some(HELO) =>
        var fits, _ := MoveClientMailDomain(buf, 5, DOMAIN_MAX_SIZE, mem);
        if fits { c := c.(phase := Greeted); }
      case Some(EHLO) =>
        var fits, _ := MoveClientMailDomain(buf, 5, DOMAIN_MAX_SIZE, mem);
        if fits { c := c.(phase := Greeted); }
      case Some(MAIL) =>
        if c.phase != ExpectAny { c := c.(phase := Mailing); }
      case Some(RCPT) =>
        if c.phase == Mailing || c.phase == Rcpt { c := c.(phase := Rcpt); }
      case Some(STARTTLS_) => c := c.(phase := ExpectTlsNeg);
      case Some(_) =>
    }
  }

  /** The handler statement by statement. */
  method SmtpHandler(conn: Connection, x: Input) returns (c: Connection, r: Result)
    requires ConnectionOk(conn) && InputOk(x)
    ensures (c, r) == Handle(conn, x)
  {
    c := conn;
    if !c.live {
      return c, Done;
    }
    if c.phase == Opened {
      c := c.(phase := ExpectAny);
      return c, Continue;
    }
    if c.phase == ExpectTlsNeg {
      if x.tls != TlsOk {
        return c, if x.tls == TlsAgain then Continue else Error;
      }
      c := c.(phase := ExpectAny);
      return c, Continue;
    }
    if x.read.Data? && |x.read.bytes| >= SMALL_BUFFER_SIZE - 1 && c.phase != ExpectData {
      return c, Error;
    } else if x.read.WouldBlock? {
      return c, Continue;
    } else if x.read.ReadError? || x.read.Eof? {
      return c, Error;
    }
    if c.phase == ExpectData {
      c, r := ReceiveData(c, x.read.bytes, x);
    } else {
      c, r := Execute(c, ReadBuffer(x.read.bytes));
    }
  }

  /** The connection as it goes back on the queue, or `None` when it is closed. */
  function Served(c: Connection, x: Input): Option<Connection>
    requires ConnectionOk(c) && InputOk(x)
  {
    var (d, r) := Handle(c, x);
    match r
    case Continue => Some(d)
    case Reset => Some(ResetConnection(d))
    case Done => None
    case Error => None
  }

  lemma ResetOk(c: Connection)
    ensures ConnectionOk(ResetConnection(c))
  {
  }

  lemma DataOk(c: Connection, data: string, x: Input)
    requires ConnectionOk(c) && c.phase.ExpectData? && 1 <= |data| <= SMALL_BUFFER_SIZE
    ensures HandleData(c, data, x).1 == Continue ==> ConnectionOk(HandleData(c, data, x).0)
  {
  }

  lemma CommandOk(c: Connection, buf: string)
    requires ConnectionOk(c) && !c.phase.ExpectData?
    ensures ConnectionOk(HandleCommand(c, buf).0)
  {
  }

  /** Serving keeps every queued connection in order, at every queue point. */
  lemma ServedOk(c: Connection, x: Input)
    requires ConnectionOk(c) && InputOk(x)
    ensures Served(c, x).Some? ==> ConnectionOk(Served(c, x).value)
  {
    ResetOk(Handle(c, x).0);
    if x.read.Data? {
      if c.phase.ExpectData? {
        DataOk(c, x.read.bytes, x);
      } else {
        CommandOk(c, ReadBuffer(x.read.bytes));
      }
    }
  }
}
