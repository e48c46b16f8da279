/** The second pass of the dump: it writes the profile into the caller's buffer, front to back.
    Everywhere `mem` is what the buffer held at first and `x` what has been written. */
module ProfWriter {
  import opened Bits
  import opened ByteSpans
  import opened ValueProfile
  import opened ProfFormat
  import opened ProfSize

  // ----- A buffer written from the front -----

  /** The buffer holds `x` and behind it what it held at first. */
  predicate Wrote(mem: Bytes, now: Bytes, x: Bytes) {
    |x| <= |mem| && |now| == |mem| && At(now, 0, x + mem[|x|..])
  }

  lemma WroteIs(mem: Bytes, now: Bytes, x: Bytes)
    ensures Wrote(mem, now, x) <==> |x| <= |mem| && now == x + mem[|x|..]
  {
    if |x| <= |mem| == |now| {
      AtIs(now, 0, x + mem[|x|..]);
      assert now[0..|now|] == now;
    }
  }

  lemma WroteMore(mem: Bytes, now: Bytes, x: Bytes, y: Bytes, next: Bytes)
    requires Wrote(mem, now, x) && |x| + |y| <= |mem| && next == now[..|x|] + y + now[|x| + |y|..]
    ensures Wrote(mem, next, x + y)
  {
    WroteIs(mem, now, x);
    WroteIs(mem, next, x + y);
    assert now[..|x|] == x;
    assert now[|x| + |y|..] == mem[|x + y|..];
  }

  /** Skipping bytes leaves what was there at first. */
  lemma WroteSkip(mem: Bytes, now: Bytes, x: Bytes, p: nat, n: nat)
    requires Wrote(mem, now, x) && p == |x| && p + n <= |mem|
    ensures Wrote(mem, now, x + Skipped(mem, p, n))
  {
    WroteIs(mem, now, x);
    var s := Skipped(mem, p, n);
    assert s == mem[|x|..|x| + n];
    assert now == (x + s) + mem[|x + s|..];
    WroteIs(mem, now, x + s);
  }

  /** Filling in earlier what was skipped. */
  lemma WroteBack(mem: Bytes, now: Bytes, x: Bytes, s: Bytes, t: Bytes, y: Bytes, next: Bytes)
    requires Wrote(mem, now, x + s + y) && |s| == |t| && next == now[..|x|] + t + now[|x| + |t|..]
    ensures Wrote(mem, next, x + t + y)
  {
    WroteIs(mem, now, x + s + y);
    WroteIs(mem, next, x + t + y);
    var rest := mem[|x + s + y|..];
    assert now == x + s + (y + rest);
    Outside(x, s, y + rest);
    assert next == x + t + y + rest;
  }

  lemma Outside(x: Bytes, s: Bytes, z: Bytes)
    ensures (x + s + z)[..|x|] == x && (x + s + z)[|x| + |s|..] == z
  {
  }

  lemma Regroup2(mem: Bytes, now: Bytes, x: Bytes, a: Bytes, b: Bytes)
    requires Wrote(mem, now, x + a + b)
    ensures Wrote(mem, now, x + (a + b))
  {
    assert x + a + b == x + (a + b);
  }

  lemma Regroup5(mem: Bytes, now: Bytes, x: Bytes, a: Bytes, b: Bytes, c: Bytes, d: Bytes, e: Bytes)
    requires Wrote(mem, now, x + a + b + c + d + e)
    ensures Wrote(mem, now, x + (a + b + c + d + e))
  {
    assert x + a + b + c + d + e == x + (a + b + c + d + e);
  }

  /** Copies `y` to `buf + at`. */
  method Put(buf: array<byte>, at: nat, y: Bytes)
    requires at + |y| <= buf.Length
    modifies buf
    ensures buf[..] == old(buf[..at]) + y + old(buf[at + |y|..])
  {
    var i := 0;
    while i < |y|
      invariant 0 <= i <= |y|
      invariant forall k :: 0 <= k < i ==> buf[at + k] == y[k]
      invariant forall k :: 0 <= k < buf.Length && !(at <= k < at + i) ==> buf[k] == old(buf[k])
    {
      buf[at + i] := y[i];
      i := i + 1;
    }
    assert buf[..at] == old(buf[..at]);
    assert buf[at..at + |y|] == y;
    assert buf[at + |y|..] == old(buf[at + |y|..]);
    assert buf[..] == buf[..at] + buf[at..at + |y|] + buf[at + |y|..];
  }

  /** Copies `y` behind what has been written. */
  method Append(buf: array<byte>, at: nat, y: Bytes, ghost mem: Bytes, ghost x: Bytes) returns (end: nat)
    requires Wrote(mem, buf[..], x) && at == |x| && at + |y| <= buf.Length
    modifies buf
    ensures Wrote(mem, buf[..], x + y) && end == at + |y|
  {
    ghost var before := buf[..];
    Put(buf, at, y);
    WroteMore(mem, before, x, y, buf[..]);
    end := at + |y|;
  }

  // ----- Value data -----

  lemma FlatStep(mem: Bytes, now: Bytes, x: Bytes, parts: seq<Bytes>, k: nat)
    requires k < |parts| && Wrote(mem, now, x + Flat(parts, k) + parts[k])
    ensures Wrote(mem, now, x + Flat(parts, k + 1))
  {
    Regroup2(mem, now, x, Flat(parts, k), parts[k]);
  }

  lemma FlatNone(mem: Bytes, now: Bytes, x: Bytes, parts: seq<Bytes>)
    requires Wrote(mem, now, x)
    ensures Wrote(mem, now, x + Flat(parts, 0))
  {
    assert x + Flat(parts, 0) == x;
  }

  method WriteNode(buf: array<byte>, at: nat, n: Node, ghost mem: Bytes, ghost x: Bytes) returns (end: nat)
    requires Wrote(mem, buf[..], x) && at == |x| && at + 16 <= buf.Length
    modifies buf
    ensures Wrote(mem, buf[..], x + NodeBytes(n)) && end == at + 16
  {
    end := Append(buf, at, LE(8, n.value), mem, x);
    end := Append(buf, end, LE(8, n.count), mem, x + LE(8, n.value));
    Regroup2(mem, buf[..], x, LE(8, n.value), LE(8, n.count));
  }

  method WriteSite(buf: array<byte>, at: nat, nodes: seq<Node>, ghost mem: Bytes, ghost x: Bytes) returns (end: nat)
    requires Wrote(mem, buf[..], x) && at == |x| && at + 16 * |nodes| <= buf.Length
    modifies buf
    ensures Wrote(mem, buf[..], x + SiteBytes(nodes)) && end == at + 16 * |nodes|
  {
    ghost var parts := NodeParts(nodes);
    FlatNone(mem, buf[..], x, parts);
    end := at;
    var k := 0;
    while k < |nodes|
      invariant 0 <= k <= |nodes| && end == at + 16 * k && end == |x + Flat(parts, k)|
      invariant Wrote(mem, buf[..], x + Flat(parts, k))
    {
      end := WriteNode(buf, end, nodes[k], mem, x + Flat(parts, k));
      FlatStep(mem, buf[..], x, parts, k);
      k := k + 1;
    }
  }

  /** The list of a site, empty without a table. */
  function SiteOf(r: ProfData, kind: nat, k: nat): (nodes: seq<Node>)
    requires RecordOk(r) && kind < 2 && k < (if kind == 0 then r.sites0 else r.sites1)
    ensures nodes == Sites(r, kind)[k]
  {
    if r.values.Some? then r.values.value[if kind == 0 then k else r.sites0 + k] else []
  }

  lemma CountStep(mem: Bytes, now: Bytes, x: Bytes, c: Bytes, k: nat)
    requires k < |c| && Wrote(mem, now, x + c[..k] + [c[k]])
    ensures Wrote(mem, now, x + c[..k + 1])
  {
    assert x + c[..k] + [c[k]] == x + c[..k + 1];
  }

  method WriteCounts(buf: array<byte>, at: nat, r: ProfData, kind: nat, n: nat, ghost mem: Bytes, ghost x: Bytes)
    returns (end: nat)
    requires RecordOk(r) && kind < 2 && n == |Sites(r, kind)|
    requires Wrote(mem, buf[..], x) && at == |x| && at + n <= buf.Length
    modifies buf
    ensures Wrote(mem, buf[..], x + CountBytes(Sites(r, kind))) && end == at + n
  {
    ghost var c := CountBytes(Sites(r, kind));
    assert x + c[..0] == x;
    end := at;
    var k := 0;
    while k < n
      invariant 0 <= k <= n && end == at + k
      invariant Wrote(mem, buf[..], x + c[..k])
    {
      var count := |SiteOf(r, kind, k)| % 256;
      assert count == c[k];
      end := Append(buf, end, [count], mem, x + c[..k]);
      CountStep(mem, buf[..], x, c, k);
      k := k + 1;
    }
    assert c[..n] == c;
  }

  method WriteSites(buf: array<byte>, at: nat, r: ProfData, kind: nat, n: nat, ghost mem: Bytes, ghost x: Bytes)
    returns (end: nat)
    requires RecordOk(r) && kind < 2 && n == |Sites(r, kind)|
    requires Wrote(mem, buf[..], x) && at == |x| && at + 16 * NodeCount(Sites(r, kind), n) <= buf.Length
    modifies buf
    ensures Wrote(mem, buf[..], x + SitesBytes(Sites(r, kind))) && end == at + 16 * NodeCount(Sites(r, kind), n)
  {
    ghost var sites := Sites(r, kind);
    ghost var parts := SiteParts(sites);
    FlatNone(mem, buf[..], x, parts);
    end := at;
    var k := 0;
    while k < n
      invariant 0 <= k <= n && end == at + 16 * NodeCount(sites, k)
      invariant Wrote(mem, buf[..], x + Flat(parts, k))
    {
      SitesSize(sites, k);
      NodesUpTo(sites, k, n);
      var nodes := SiteOf(r, kind, k);
      end := WriteSite(buf, end, nodes, mem, x + Flat(parts, k));
      FlatStep(mem, buf[..], x, parts, k);
      k := k + 1;
    }
  }

  lemma {:induction false} NodesUpTo(sites: seq<seq<Node>>, k: nat, n: nat)
    requires k < n <= |sites|
    ensures NodeCount(sites, k) + |sites[k]| <= NodeCount(sites, n)
  {
    if k + 1 < n {
      NodesUpTo(sites, k, n - 1);
    }
  }

  method WriteKind(buf: array<byte>, at: nat, r: ProfData, kind: nat, ghost mem: Bytes, ghost x: Bytes)
    returns (end: nat)
    requires RecordOk(r) && kind < 2
    requires Wrote(mem, buf[..], x) && at == |x| && at + KindSize(Sites(r, kind)) <= buf.Length
    modifies buf
    ensures Wrote(mem, buf[..], x + KindBytes(kind, Sites(r, kind), mem, at)) && end == at + KindSize(Sites(r, kind))
  {
    var n := if kind == 0 then r.sites0 else r.sites1;
    if n == 0 {
      assert KindBytes(kind, Sites(r, kind), mem, at) == [];
      assert x + [] == x;
      return at;
    }
    ghost var sites := Sites(r, kind);
    ghost var a, b, c, g := LE(4, kind), LE(4, n), CountBytes(sites), Skipped(mem, at + 8 + n, Gap(n));
    end := Append(buf, at, LE(4, kind), mem, x);
    end := Append(buf, end, LE(4, n), mem, x + a);
    end := WriteCounts(buf, end, r, kind, n, mem, x + a + b);
    WroteSkip(mem, buf[..], x + a + b + c, at + 8 + n, Gap(n));
    if n % 8 != 0 {
      end := end + (8 - n % 8);
    }
    end := WriteSites(buf, end, r, kind, n, mem, x + a + b + c + g);
    Regroup5(mem, buf[..], x, a, b, c, g, SitesBytes(sites));
    KindBytesAre(kind, sites, mem, at, g);
  }

  method WriteKinds(buf: array<byte>, at: nat, r: ProfData, ghost mem: Bytes, ghost x: Bytes) returns (end: nat)
    requires RecordOk(r)
    requires Wrote(mem, buf[..], x) && at == |x| && at + KindsSize(r) <= buf.Length
    modifies buf
    ensures Wrote(mem, buf[..], x + KindsBytes(r, mem, at)) && end == at + KindsSize(r)
  {
    ghost var s0, s1 := Sites(r, 0), Sites(r, 1);
    ghost var b0, b1 := KindBytes(0, s0, mem, at), KindBytes(1, s1, mem, at + KindSize(s0));
    end := WriteKind(buf, at, r, 0, mem, x);
    end := WriteKind(buf, end, r, 1, mem, x + b0);
    Regroup2(mem, buf[..], x, b0, b1);
  }

  method WriteValue(buf: array<byte>, at: nat, r: ProfData, ghost mem: Bytes, ghost x: Bytes, ghost rec: ProfData,
      ghost place: nat) returns (end: nat)
    requires RecordOk(r) && rec == r && place == at
    requires Wrote(mem, buf[..], x) && at == |x| && at + ValueSize(r) <= buf.Length
    modifies buf
    ensures Wrote(mem, buf[..], x + ValueBytes(rec, mem, place)) && end == at + ValueSize(r)
  {
    if r.sites0 == 0 && r.sites1 == 0 {
      assert x + [] == x;
      return at;
    }
    ghost var hole, kinds, rest := Skipped(mem, at, 4), LE(4, KindsOf(r)), KindsBytes(r, mem, at + 8);
    WroteSkip(mem, buf[..], x, at, 4);
    end := Append(buf, at + 4, LE(4, if r.sites0 > 0 && r.sites1 > 0 then 2 else 1), mem, x + hole);
    end := WriteKinds(buf, end, r, mem, x + hole + kinds);
    Regroup2(mem, buf[..], x + hole, kinds, rest);
    Fill(buf, at, LE(4, end - at), mem, x, hole, kinds + rest);
    Parenthesize(mem, buf[..], x, LE(4, ValueSize(r)), kinds, rest);
  }

  lemma Parenthesize(mem: Bytes, now: Bytes, x: Bytes, a: Bytes, b: Bytes, c: Bytes)
    requires Wrote(mem, now, x + a + (b + c))
    ensures Wrote(mem, now, x + (a + b + c))
  {
    assert x + a + (b + c) == x + (a + b + c);
  }

  /** Writes what was skipped. */
  method Fill(buf: array<byte>, at: nat, t: Bytes, ghost mem: Bytes, ghost x: Bytes, ghost s: Bytes, ghost y: Bytes)
    requires Wrote(mem, buf[..], x + s + y) && at == |x| && |s| == |t|
    modifies buf
    ensures Wrote(mem, buf[..], x + t + y)
  {
    ghost var before := buf[..];
    Put(buf, at, t);
    WroteBack(mem, before, x, s, t, y, buf[..]);
  }

  /** The value data of the first `k` records is written, up to `end`. */
  ghost predicate FirstWritten(rs: seq<ProfData>, k: nat, at: nat, mem: Bytes, x: Bytes, now: Bytes, end: nat)
    requires RecordsOk(rs)
  {
    k <= |rs| && end == ValuePlace(rs, k, at) && Wrote(mem, now, x + ValuesBytes(rs, k, mem, at))
  }

  /** The value data of the `k`-th record behind that of those before it. */
  method WriteNextValue(buf: array<byte>, end: nat, r: ProfData, ghost rs: seq<ProfData>, ghost k: nat,
      ghost at: nat, ghost mem: Bytes, ghost x: Bytes) returns (next: nat)
    requires RecordsOk(rs) && k < |rs| && r == rs[k] && at == |x| && FirstWritten(rs, k, at, mem, x, buf[..], end)
    requires ValuePlace(rs, |rs|, at) <= buf.Length
    modifies buf
    ensures FirstWritten(rs, k + 1, at, mem, x, buf[..], next)
  {
    ValuesUpTo(rs, k, |rs|);
    next := WriteValue(buf, end, r, mem, x + ValuesBytes(rs, k, mem, at), rs[k], ValuePlace(rs, k, at));
    ValuesStep(mem, buf[..], x, rs, k, at);
  }

  /** The value data of the records among the first `i` sections is written, up to `end`. */
  ghost predicate ValuesWritten(ss: seq<Section>, i: nat, rs: seq<ProfData>, at: nat, mem: Bytes, x: Bytes,
      now: Bytes, end: nat) {
    i <= |ss| && RecordsOk(rs) && FirstWritten(rs, |Records(ss, i)|, at, mem, x, now, end)
  }

  method WriteSectionValue(buf: array<byte>, end: nat, ss: seq<Section>, i: nat, ghost rs: seq<ProfData>,
      ghost at: nat, ghost mem: Bytes, ghost x: Bytes) returns (next: nat)
    requires i < |ss| && rs == Records(ss, |ss|) && ValuesWritten(ss, i, rs, at, mem, x, buf[..], end)
    requires at == |x| && ValuePlace(rs, |rs|, at) <= buf.Length
    modifies buf
    ensures ValuesWritten(ss, i + 1, rs, at, mem, x, buf[..], next)
  {
    NextRecord(ss, i);
    next := end;
    if ss[i].Data? {
      next := WriteNextValue(buf, end, ss[i].rec, rs, |Records(ss, i)|, at, mem, x);
    }
  }

  lemma ValuesBegin(ss: seq<Section>, rs: seq<ProfData>, at: nat, mem: Bytes, x: Bytes, now: Bytes)
    requires RecordsOk(rs) && Wrote(mem, now, x)
    ensures ValuesWritten(ss, 0, rs, at, mem, x, now, at)
  {
    assert x + ValuesBytes(rs, 0, mem, at) == x;
  }

  method WriteValues(buf: array<byte>, at: nat, ss: seq<Section>, ghost rs: seq<ProfData>, ghost mem: Bytes,
      ghost x: Bytes) returns (end: nat)
    requires RecordsOk(rs) && rs == Records(ss, |ss|)
    requires Wrote(mem, buf[..], x) && at == |x| && ValuePlace(rs, |rs|, at) <= buf.Length
    modifies buf
    ensures ValuesWritten(ss, |ss|, rs, at, mem, x, buf[..], end)
  {
    ValuesBegin(ss, rs, at, mem, x, buf[..]);
    end := at;
    var i := 0;
    while i != |ss|
      invariant 0 <= i <= |ss| && ValuesWritten(ss, i, rs, at, mem, x, buf[..], end)
    {
      end := WriteSectionValue(buf, end, ss, i, rs, at, mem, x);
      i := i + 1;
    }
  }

  lemma ValuesStep(mem: Bytes, now: Bytes, x: Bytes, rs: seq<ProfData>, k: nat, at: nat)
    requires RecordsOk(rs) && k < |rs|
    requires Wrote(mem, now, x + ValuesBytes(rs, k, mem, at) + ValueBytes(rs[k], mem, ValuePlace(rs, k, at)))
    ensures Wrote(mem, now, x + ValuesBytes(rs, k + 1, mem, at))
  {
    FlatStep(mem, now, x, ValueParts(rs, mem, at), k);
  }

  lemma {:induction false} ValuesUpTo(rs: seq<ProfData>, i: nat, n: nat)
    requires RecordsOk(rs) && i < n <= |rs|
    ensures ValuesSize(rs, i) + ValueSize(rs[i]) <= ValuesSize(rs, n)
  {
    if i + 1 < n {
      ValuesUpTo(rs, i, n - 1);
    }
  }

  // ----- Records -----

  /** The first loop: each record's distance to its counters. */
  method CounterOffsets(ss: seq<Section>, numData: nat, ghost rs: seq<ProfData>) returns (offsets: seq<int>)
    requires rs == Records(ss, |ss|) && numData == |rs|
    ensures |offsets| == |rs| && forall k :: 0 <= k < |rs| ==> offsets[k] == Offset(rs, k)
  {
    var countersDelta: int, offsetCounters := 64 * numData, 0;
    offsets := [];
    var i := 0;
    while i < |ss|
      invariant 0 <= i <= |ss| && |offsets| == |Records(ss, i)| <= |rs|
      invariant countersDelta == 64 * (|rs| - |offsets|) && offsetCounters == 8 * SumCounters(rs, |offsets|)
      invariant forall k :: 0 <= k < |offsets| ==> offsets[k] == Offset(rs, k)
    {
      NextRecord(ss, i);
      if ss[i].Data? {
        offsets := offsets + [countersDelta + offsetCounters];
        offsetCounters := offsetCounters + ss[i].rec.numCounters * 8;
        countersDelta := countersDelta - 64;
      }
      i := i + 1;
    }
  }

  lemma RecordGroups(mem: Bytes, now: Bytes, x: Bytes, a: Bytes, b: Bytes, c: Bytes, d: Bytes, e: Bytes, f: Bytes)
    requires Wrote(mem, now, x + a + b + c + d + e + f)
    ensures Wrote(mem, now, x + (a + b + c + d + (e + f)))
  {
    assert x + a + b + c + d + e + f == x + (a + b + c + d + (e + f));
  }

  method WriteRecord(buf: array<byte>, at: nat, r: ProfData, offset: int, ghost mem: Bytes, ghost x: Bytes)
    returns (end: nat)
    requires Wrote(mem, buf[..], x) && at == |x| && at + 64 <= buf.Length
    modifies buf
    ensures Wrote(mem, buf[..], x + RecordBytes(r, offset, Skipped(mem, at + 60, 4))) && end == at + 64
  {
    ghost var a, b, c := RecordHead(r), LE(8, offset), RecordMiddle(r);
    ghost var d, e := LE(4, r.numCounters), RecordTail(r);
    end := Append(buf, at, RecordHead(r), mem, x);
    end := Append(buf, end, LE(8, offset), mem, x + a);
    end := Append(buf, end, RecordMiddle(r), mem, x + a + b);
    end := Append(buf, end, LE(4, r.numCounters), mem, x + a + b + c);
    end := Append(buf, end, RecordTail(r), mem, x + a + b + c + d);
    WroteSkip(mem, buf[..], x + a + b + c + d + e, at + 60, 4);
    RecordGroups(mem, buf[..], x, a, b, c, d, e, Skipped(mem, at + 60, 4));
    end := at + 64;
  }

  method WriteRecords(buf: array<byte>, ss: seq<Section>, offsets: seq<int>, ghost p: Profile, ghost mem: Bytes,
      ghost x: Bytes) returns (end: nat)
    requires p.records == Records(ss, |ss|)
    requires |offsets| == |p.records| && forall k :: 0 <= k < |offsets| ==> offsets[k] == Offset(p.records, k)
    requires Wrote(mem, buf[..], x) && |x| == 112 && 112 + 64 * |p.records| <= buf.Length
    modifies buf
    ensures Wrote(mem, buf[..], x + RecordsBytes(p, mem)) && end == 112 + 64 * |p.records|
  {
    ghost var rs, parts := p.records, RecordParts(p.records, mem);
    FlatNone(mem, buf[..], x, parts);
    end := 112;
    var k := 0;
    var i := 0;
    while i < |ss|
      invariant 0 <= i <= |ss| && k == |Records(ss, i)| <= |rs| && end == 112 + 64 * k
      invariant Wrote(mem, buf[..], x + Flat(parts, k))
    {
      NextRecord(ss, i);
      if ss[i].Data? {
        FlatEven(parts, k, 64);
        end := WriteRecord(buf, end, ss[i].rec, offsets[k], mem, x + Flat(parts, k));
        assert parts[k] == RecordPart(rs, k, mem);
        FlatStep(mem, buf[..], x, parts, k);
        k := k + 1;
      }
      i := i + 1;
    }
  }

  // ----- Counters and names -----

  lemma {:induction false} FlatUpTo(parts: seq<Bytes>, k: nat, n: nat)
    requires k < n <= |parts|
    ensures |Flat(parts, k)| + |parts[k]| <= |Flat(parts, n)|
  {
    if k + 1 < n {
      FlatUpTo(parts, k, n - 1);
    }
  }

  method WriteCounters(buf: array<byte>, at: nat, ss: seq<Section>, ghost cs: seq<Bytes>, ghost mem: Bytes,
      ghost x: Bytes) returns (end: nat)
    requires cs == CounterSections(ss, |ss|)
    requires Wrote(mem, buf[..], x) && at == |x| && at + |Flat(cs, |cs|)| <= buf.Length
    modifies buf
    ensures Wrote(mem, buf[..], x + Flat(cs, |cs|)) && end == at + |Flat(cs, |cs|)|
  {
    FlatNone(mem, buf[..], x, cs);
    end := at;
    ghost var k := 0;
    var i := 0;
    while i < |ss|
      invariant 0 <= i <= |ss| && k == |CounterSections(ss, i)| <= |cs| && end == at + |Flat(cs, k)|
      invariant Wrote(mem, buf[..], x + Flat(cs, k))
    {
      NextCounters(ss, i);
      if ss[i].Counters? {
        FlatUpTo(cs, k, |cs|);
        end := Append(buf, end, ss[i].bytes, mem, x + Flat(cs, k));
        FlatStep(mem, buf[..], x, cs, k);
        k := k + 1;
      }
      i := i + 1;
    }
  }

  method WriteNames(buf: array<byte>, at: nat, names: Bytes, ghost p: Profile, ghost mem: Bytes, ghost x: Bytes)
    returns (end: nat)
    requires p.names == names && Wrote(mem, buf[..], x) && at == |x| && at + |names| + Gap(|names|) <= buf.Length
    modifies buf
    ensures Wrote(mem, buf[..], x + NamesBytes(p)) && end == at + |names| + Gap(|names|)
  {
    end := at;
    if |names| > 0 {
      end := Append(buf, end, names, mem, x);
      var padding := 8 - |names| % 8;
      if padding != 8 {
        end := Append(buf, end, LE(padding, 0), mem, x + names);
        Regroup2(mem, buf[..], x, names, LE(padding, 0));
      } else {
        assert x + names == x + NamesBytes(p);
      }
    } else {
      assert x == x + NamesBytes(p);
    }
  }

  // ----- The whole dump -----

  /** Records, counters and names. */
  method WriteFront(buf: array<byte>, ss: seq<Section>, offsets: seq<int>, names: Bytes, ghost p: Profile,
      ghost mem: Bytes, ghost h: Bytes) returns (end: nat)
    requires p == ProfileOf(ss) && names == p.names
    requires |offsets| == |p.records| && forall k :: 0 <= k < |offsets| ==> offsets[k] == Offset(p.records, k)
    requires Wrote(mem, buf[..], h) && |h| == 112 && ValuesAt(p) <= buf.Length
    modifies buf
    ensures Wrote(mem, buf[..], h + RecordsBytes(p, mem) + CountersBytes(p) + NamesBytes(p)) && end == ValuesAt(p)
  {
    ghost var r, c := RecordsBytes(p, mem), CountersBytes(p);
    end := WriteRecords(buf, ss, offsets, p, mem, h);
    end := WriteCounters(buf, end, ss, p.counters, mem, h + r);
    end := WriteNames(buf, end, names, p, mem, h + r + c);
  }

  /** Everything behind the header. */
  method WriteBody(buf: array<byte>, ss: seq<Section>, offsets: seq<int>, names: Bytes, ghost p: Profile,
      ghost mem: Bytes, ghost h: Bytes) returns (valuesSize: nat)
    requires p == ProfileOf(ss) && RecordsOk(p.records) && names == p.names
    requires |offsets| == |p.records| && forall k :: 0 <= k < |offsets| ==> offsets[k] == Offset(p.records, k)
    requires Wrote(mem, buf[..], h) && |h| == 112 && FullSize(p) <= buf.Length
    modifies buf
    ensures Wrote(mem, buf[..], h + RecordsBytes(p, mem) + CountersBytes(p) + NamesBytes(p)
                                + ValuesBytes(p.records, |p.records|, mem, ValuesAt(p)))
    ensures valuesSize == ValuesSize(p.records, |p.records|)
  {
    var start := WriteFront(buf, ss, offsets, names, p, mem, h);
    valuesSize := WriteRest(buf, start, ss, p.records, mem,
        h + RecordsBytes(p, mem) + CountersBytes(p) + NamesBytes(p), ValuesAt(p));
  }

  method WriteRest(buf: array<byte>, start: nat, ss: seq<Section>, ghost rs: seq<ProfData>, ghost mem: Bytes,
      ghost x: Bytes, ghost at: nat) returns (size: nat)
    requires RecordsOk(rs) && rs == Records(ss, |ss|) && start == at
    requires Wrote(mem, buf[..], x) && at == |x| && at + ValuesSize(rs, |rs|) <= buf.Length
    modifies buf
    ensures Wrote(mem, buf[..], x + ValuesBytes(rs, |rs|, mem, at)) && size == ValuesSize(rs, |rs|)
  {
    var end := WriteValues(buf, start, ss, rs, mem, x);
    size := end - start;
  }

  /** `aot_dump_pgo_prof_data_to_buf`: nothing if the buffer is too small, else exactly the
      dump, as many bytes as were computed. The last assertion is the source's own. */
  method DumpProfData(ss: seq<Section>, buf: array<byte>) returns (size: nat)
    requires SectionsOk(ss) && Fits(ss) && RecordsOk(ProfileOf(ss).records)
    modifies buf
    ensures buf.Length < FullSize(ProfileOf(ss)) ==> size == 0 && buf[..] == old(buf[..])
    ensures buf.Length >= FullSize(ProfileOf(ss)) ==>
              size == FullSize(ProfileOf(ss)) && Wrote(old(buf[..]), buf[..], Dump(ProfileOf(ss), old(buf[..])))
  {
    ghost var p, mem := ProfileOf(ss), buf[..];
    SizeExact(ss);
    OneWrap(ValuesSize(p.records, |p.records|), U32);
    var total, c := GetProfDataSize(ss);
    if buf.Length < total {
      return 0;
    }
    var offsets := CounterOffsets(ss, c.numData, p.records);
    ghost var h := HeaderBytes(c.numData, c.numCounters, |c.names|);
    WroteNone(mem);
    var end := Append(buf, 0, HeaderBytes(c.numData, c.numCounters, |c.names|), mem, []);
    assert [] + h == h;
    var valuesSize := WriteBody(buf, ss, offsets, c.names, p, mem, h);
    assert valuesSize == c.valuesSize;
    return total;
  }

  lemma WroteNone(mem: Bytes)
    ensures Wrote(mem, mem, [])
  {
    WroteIs(mem, mem, []);
  }
}
