/** A reader of the raw profile, and what it finds in a dump. */
module ProfReader {
  import opened Bits
  import opened ByteSpans
  import opened ValueProfile
  import opened ProfFormat

  /** Records, counters, names and value data, as the reader meets them. */
  lemma DumpParts(p: Profile, mem: Bytes)
    requires RecordsOk(p.records)
    ensures At(Dump(p, mem), 0, HeaderBytes(|p.records|, Wrap32(SumCounters(p.records, |p.records|)), |p.names|))
    ensures At(Dump(p, mem), 112, RecordsBytes(p, mem))
    ensures At(Dump(p, mem), CountersAt(p), CountersBytes(p))
    ensures At(Dump(p, mem), NamesAt(p), NamesBytes(p))
    ensures At(Dump(p, mem), ValuesAt(p), ValuesBytes(p.records, |p.records|, mem, ValuesAt(p)))
  {
    var d, h := Dump(p, mem), HeaderBytes(|p.records|, Wrap32(SumCounters(p.records, |p.records|)), |p.names|);
    AtSelf(d);
    AtSplit5(d, 0, h, 112, RecordsBytes(p, mem), CountersAt(p), CountersBytes(p), NamesAt(p), NamesBytes(p),
        ValuesAt(p), ValuesBytes(p.records, |p.records|, mem, ValuesAt(p)));
  }

  lemma WordsSize(words: seq<int>, i: nat)
    requires i <= |words|
    ensures |Flat(WordParts(words), i)| == 8 * i
  {
    FlatEven(WordParts(words), i, 8);
  }

  lemma WordAt(words: seq<int>, i: nat, d: Bytes)
    requires i < |words| && At(d, 0, Flat(WordParts(words), |words|))
    ensures At(d, 8 * i, WordBytes(words[i]))
  {
    WordsSize(words, i);
    FlatInside(d, 0, WordParts(words), i, 8 * i, 8 * i);
  }

  lemma HeaderWordAt(d: Bytes, n: nat, c: nat, size: nat, i: nat)
    requires At(d, 0, HeaderBytes(n, c, size)) && i < 14
    requires 64 * n < 0x1_0000_0000_0000_0000 && c < 0x1_0000_0000_0000_0000 && size < 0x1_0000_0000_0000_0000
    ensures 8 * i + 8 <= |d| && ReadInt(8, d, 8 * i) == HeaderWords(n, c, size)[i]
  {
    var words := HeaderWords(n, c, size);
    WordAt(words, i, d);
    ReadInt8(words[i], d, 8 * i);
  }

  lemma HeaderFits(p: Profile)
    requires RecordsOk(p.records) && FullSize(p) < 0x1_0000_0000_0000_0000
    ensures 64 * |p.records| < 0x1_0000_0000_0000_0000 && |p.names| < 0x1_0000_0000_0000_0000
  {
  }

  /** The header's words, in particular the counts and the distance to the counters. */
  lemma HeaderReadsBack(p: Profile, mem: Bytes, i: nat)
    requires RecordsOk(p.records) && FullSize(p) < 0x1_0000_0000_0000_0000 && i < 14
    ensures 8 * i + 8 <= |Dump(p, mem)|
    ensures ReadInt(8, Dump(p, mem), 8 * i)
         == HeaderWords(|p.records|, Wrap32(SumCounters(p.records, |p.records|)), |p.names|)[i]
  {
    DumpParts(p, mem);
    HeaderFits(p);
    HeaderWordAt(Dump(p, mem), |p.records|, Wrap32(SumCounters(p.records, |p.records|)), |p.names|, i);
  }

  lemma HeaderNumbers(d: Bytes, n: nat, c: nat, size: nat)
    requires At(d, 0, HeaderBytes(n, c, size)) && |d| >= 112
    requires 64 * n < 0x1_0000_0000_0000_0000 && c < 0x1_0000_0000_0000_0000 && size < 0x1_0000_0000_0000_0000
    ensures ReadInt(8, d, 0) == 0xFF6C_7072_6F66_7281
    ensures ReadInt(8, d, 8) == 9 + 0x0100_0000_0000_0000 + 0x4000_0000_0000_0000
    ensures ReadInt(8, d, 24) == n && ReadInt(8, d, 40) == c && ReadInt(8, d, 72) == size
    ensures ReadInt(8, d, 80) == 64 * n && ReadInt(8, d, 104) == 1
  {
    HeaderWordAt(d, n, c, size, 0);
    HeaderWordAt(d, n, c, size, 1);
    HeaderWordAt(d, n, c, size, 3);
    HeaderWordAt(d, n, c, size, 5);
    HeaderWordAt(d, n, c, size, 9);
    HeaderWordAt(d, n, c, size, 10);
    HeaderWordAt(d, n, c, size, 13);
  }

  lemma HeaderZeros(d: Bytes, n: nat, c: nat, size: nat)
    requires At(d, 0, HeaderBytes(n, c, size)) && |d| >= 112
    requires 64 * n < 0x1_0000_0000_0000_0000 && c < 0x1_0000_0000_0000_0000 && size < 0x1_0000_0000_0000_0000
    ensures ReadInt(8, d, 16) == 0 && ReadInt(8, d, 32) == 0 && ReadInt(8, d, 48) == 0 && ReadInt(8, d, 56) == 0
    ensures ReadInt(8, d, 64) == 0 && ReadInt(8, d, 88) == 0 && ReadInt(8, d, 96) == 0
  {
    HeaderWordAt(d, n, c, size, 2);
    HeaderWordAt(d, n, c, size, 4);
    HeaderWordAt(d, n, c, size, 6);
    HeaderWordAt(d, n, c, size, 7);
    HeaderWordAt(d, n, c, size, 8);
    HeaderWordAt(d, n, c, size, 11);
    HeaderWordAt(d, n, c, size, 12);
  }

  /** The header field by field: magic; version 9 of an instrumented program with memory
      profile; the numbers of records and counters and the size of the names; the distance
      from the first record to the counters; the last value kind; and zero in all others. */
  lemma HeaderFields(p: Profile, mem: Bytes)
    requires RecordsOk(p.records) && FullSize(p) < 0x1_0000_0000_0000_0000
    ensures |Dump(p, mem)| >= 112
    ensures var d := Dump(p, mem);
            && ReadInt(8, d, 0) == 0xFF6C_7072_6F66_7281
            && ReadInt(8, d, 8) == 9 + 0x0100_0000_0000_0000 + 0x4000_0000_0000_0000
            && ReadInt(8, d, 24) == |p.records|
            && ReadInt(8, d, 40) == Wrap32(SumCounters(p.records, |p.records|))
            && ReadInt(8, d, 72) == |p.names|
            && 112 + ReadInt(8, d, 80) == CountersAt(p) && At(d, CountersAt(p), CountersBytes(p))
            && ReadInt(8, d, 104) == 1
            && ReadInt(8, d, 16) == 0 && ReadInt(8, d, 32) == 0 && ReadInt(8, d, 48) == 0 && ReadInt(8, d, 56) == 0
            && ReadInt(8, d, 64) == 0 && ReadInt(8, d, 88) == 0 && ReadInt(8, d, 96) == 0
  {
    var c := Wrap32(SumCounters(p.records, |p.records|));
    DumpParts(p, mem);
    HeaderFits(p);
    HeaderNumbers(Dump(p, mem), |p.records|, c, |p.names|);
    HeaderZeros(Dump(p, mem), |p.records|, c, |p.names|);
  }

  // ----- Counters -----

  /** The counter sections come in the order of the records and have their sizes. */
  predicate Paired(rs: seq<ProfData>, cs: seq<Bytes>) {
    |rs| == |cs| && forall i :: 0 <= i < |rs| ==> |cs[i]| == 8 * rs[i].numCounters
  }

  lemma {:induction false} FlatSum(rs: seq<ProfData>, cs: seq<Bytes>, n: nat)
    requires Paired(rs, cs) && n <= |rs|
    ensures |Flat(cs, n)| == 8 * SumCounters(rs, n)
  {
    if n > 0 {
      FlatSum(rs, cs, n - 1);
    }
  }

  /** The record at `p` leads to `counters`: as far behind it as its offset says, and as many
      as it says. */
  predicate LeadsTo(d: Bytes, p: nat, counters: Bytes) {
    && p + 64 <= |d|
    && 64 <= ReadInt(8, d, p + 16)
    && |counters| == 8 * ReadInt(4, d, p + 48)
    && At(d, p + ReadInt(8, d, p + 16), counters)
  }

  lemma FieldsAt(d: Bytes, p: nat, r: ProfData, offset: int, pad: Bytes)
    requires |pad| == 4 && At(d, p, RecordBytes(r, offset, pad))
    ensures p + 64 <= |d| && At(d, p + 16, LE(8, offset)) && At(d, p + 48, LE(4, r.numCounters))
  {
    AtSplit5(d, p, RecordHead(r), p + 16, LE(8, offset), p + 24, RecordMiddle(r), p + 48, LE(4, r.numCounters),
        p + 52, RecordTail(r) + pad);
  }

  lemma RecordLeadsTo(d: Bytes, p: nat, offset: nat, n: nat, counters: Bytes)
    requires p + 64 <= |d| < 0x1_0000_0000_0000_0000 && At(d, p + 16, LE(8, offset)) && At(d, p + 48, LE(4, n))
    requires 64 <= offset && n < 0x1_0000_0000 && |counters| == 8 * n && At(d, p + offset, counters)
    ensures LeadsTo(d, p, counters)
  {
    ReadInt8(offset, d, p + 16);
    ReadInt4(n, d, p + 48);
  }

  lemma RecordAt(d: Bytes, p: Profile, mem: Bytes, i: nat)
    requires i < |p.records| && At(d, 112, RecordsBytes(p, mem))
    ensures At(d, 112 + 64 * i, RecordPart(p.records, i, mem))
  {
    var parts := RecordParts(p.records, mem);
    FlatEven(parts, i, 64);
    FlatInside(d, 112, parts, i, 64 * i, 112 + 64 * i);
  }

  lemma CounterAt(d: Bytes, at: nat, rs: seq<ProfData>, cs: seq<Bytes>, i: nat, q: nat)
    requires Paired(rs, cs) && i < |rs| && At(d, at, Flat(cs, |cs|)) && q == at + 8 * SumCounters(rs, i)
    ensures At(d, q, cs[i])
  {
    FlatSum(rs, cs, i);
    FlatInside(d, at, cs, i, 8 * SumCounters(rs, i), q);
  }

  /** From every record at its place the reader gets to that record's own counters. */
  lemma OwnCounters(p: Profile, mem: Bytes, i: nat)
    requires RecordsOk(p.records) && FullSize(p) < 0x1_0000_0000_0000_0000
    requires Paired(p.records, p.counters) && i < |p.records|
    ensures LeadsTo(Dump(p, mem), 112 + 64 * i, p.counters[i])
  {
    DumpParts(p, mem);
    OwnCountersIn(Dump(p, mem), p, mem, i);
  }

  lemma OwnCountersIn(d: Bytes, p: Profile, mem: Bytes, i: nat)
    requires RecordsOk(p.records) && Paired(p.records, p.counters) && i < |p.records|
    requires |d| < 0x1_0000_0000_0000_0000
    requires At(d, 112, RecordsBytes(p, mem)) && At(d, CountersAt(p), CountersBytes(p))
    ensures LeadsTo(d, 112 + 64 * i, p.counters[i])
  {
    var rs := p.records;
    RecordAt(d, p, mem, i);
    FieldsAt(d, 112 + 64 * i, rs[i], Offset(rs, i), Skipped(mem, 172 + 64 * i, 4));
    CounterAt(d, CountersAt(p), rs, p.counters, i, 112 + 64 * i + Offset(rs, i));
    RecordLeadsTo(d, 112 + 64 * i, Offset(rs, i), rs[i].numCounters, p.counters[i]);
  }

  // ----- What the dump fills in and what it leaves -----

  lemma {:induction false} ZeroDigit(i: nat)
    ensures Digit(0, i) == 0
    decreases i
  {
    if i > 0 {
      ZeroDigit(i - 1);
    }
  }

  lemma ZeroBytes(d: Bytes, p: nat, n: nat)
    requires At(d, p, LE(n, 0))
    ensures p + n <= |d| && forall k :: p <= k < p + n ==> d[k] == 0
  {
    forall k | p <= k < p + n
      ensures d[k] == 0
    {
      assert d[p + (k - p)] == LE(n, 0)[k - p];
      ZeroDigit(k - p);
    }
  }

  /** Behind the names there are zeros up to the value data. */
  lemma NamesPadded(p: Profile, mem: Bytes)
    requires RecordsOk(p.records)
    ensures ValuesAt(p) <= |Dump(p, mem)| && ValuesAt(p) < NamesAt(p) + |p.names| + 8
    ensures forall k :: NamesAt(p) + |p.names| <= k < ValuesAt(p) ==> Dump(p, mem)[k] == 0
  {
    DumpParts(p, mem);
    AtSplit(Dump(p, mem), NamesAt(p), p.names, NamesAt(p) + |p.names|, LE(Gap(|p.names|), 0));
    ZeroBytes(Dump(p, mem), NamesAt(p) + |p.names|, Gap(|p.names|));
  }

  lemma SkippedIs(mem: Bytes, at: nat, n: nat, pad: Bytes)
    requires pad == Skipped(mem, at, n) && at + n <= |mem|
    ensures |pad| == n && forall k :: at <= k < at + n ==> mem[k] == pad[k - at]
  {
  }

  lemma RecordBytesAt(p: Profile, mem: Bytes, i: nat, q: nat, pad: Bytes)
    requires RecordsOk(p.records) && i < |p.records| && q == 112 + 64 * i && pad == Skipped(mem, q + 60, 4)
    ensures At(Dump(p, mem), q, RecordBytes(p.records[i], Offset(p.records, i), pad))
  {
    DumpParts(p, mem);
    RecordAt(Dump(p, mem), p, mem, i);
  }

  lemma RecordEndsAt(d: Bytes, mem: Bytes, q: nat, r: ProfData, offset: int)
    requires q + 64 <= |mem| && At(d, q, RecordBytes(r, offset, Skipped(mem, q + 60, 4)))
    ensures q + 64 <= |d|
    ensures forall k :: q + 56 <= k < q + 60 ==> d[k] == 0
    ensures forall k :: q + 60 <= k < q + 64 ==> d[k] == mem[k]
  {
    var pad := Skipped(mem, q + 60, 4);
    RecordEndsIn(d, q, r, offset, pad);
    SkippedIs(mem, q + 60, 4, pad);
  }

  /** The number of bitmaps of every record is zero, and the padding behind it is as it was. */
  lemma RecordEnds(p: Profile, mem: Bytes, i: nat, q: nat)
    requires RecordsOk(p.records) && i < |p.records| && q == 112 + 64 * i && q + 64 <= |mem|
    ensures q + 64 <= |Dump(p, mem)|
    ensures forall k :: q + 56 <= k < q + 60 ==> Dump(p, mem)[k] == 0
    ensures forall k :: q + 60 <= k < q + 64 ==> Dump(p, mem)[k] == mem[k]
  {
    RecordBytesAt(p, mem, i, q, Skipped(mem, q + 60, 4));
    RecordEndsAt(Dump(p, mem), mem, q, p.records[i], Offset(p.records, i));
  }

  lemma RecordEndsIn(d: Bytes, q: nat, r: ProfData, offset: int, pad: Bytes)
    requires |pad| == 4 && At(d, q, RecordBytes(r, offset, pad))
    ensures q + 64 <= |d|
    ensures forall k :: q + 56 <= k < q + 60 ==> d[k] == 0
    ensures forall k :: q + 60 <= k < q + 64 ==> d[k] == pad[k - (q + 60)]
  {
    AtSplit5(d, q, RecordHead(r), q + 16, LE(8, offset), q + 24, RecordMiddle(r), q + 48, LE(4, r.numCounters),
        q + 52, RecordTail(r) + pad);
    AtSplit(d, q + 52, RecordTail(r), q + 60, pad);
    AtSplit3(d, q + 52, LE(2, r.sites0), q + 54, LE(2, r.sites1), q + 56, LE(4, 0));
    ZeroBytes(d, q + 56, 4);
  }

  // ----- Value data -----

  function ReadWord(d: Bytes, p: nat): (w: Word)
    requires p + 8 <= |d|
  {
    Powers();
    FromLEBound(d[p..p + 8]);
    ReadInt(8, d, p)
  }

  function ReadNode(d: Bytes, p: nat): Node
    requires p + 16 <= |d|
  {
    Node(ReadWord(d, p), ReadWord(d, p + 8))
  }

  function ReadNodes(n: nat, d: Bytes, p: nat): (nodes: seq<Node>)
    requires p + 16 * n <= |d|
    ensures |nodes| == n
  {
    seq(n, i requires 0 <= i < n => ReadNode(d, p + 16 * i))
  }

  lemma ReadNodeBack(node: Node, d: Bytes, p: nat)
    requires At(d, p, NodeBytes(node))
    ensures p + 16 <= |d| && ReadNode(d, p) == node
  {
    AtSplit(d, p, LE(8, node.value), p + 8, LE(8, node.count));
    ReadInt8(node.value, d, p);
    ReadInt8(node.count, d, p + 8);
  }

  lemma NodeAt(nodes: seq<Node>, d: Bytes, p: nat, i: nat)
    requires i < |nodes| && At(d, p, SiteBytes(nodes))
    ensures At(d, p + 16 * i, NodeBytes(nodes[i]))
  {
    var parts := NodeParts(nodes);
    FlatEven(parts, i, 16);
    FlatInside(d, p, parts, i, 16 * i, p + 16 * i);
  }

  lemma ReadNodesBack(nodes: seq<Node>, d: Bytes, p: nat)
    requires p + 16 * |nodes| <= |d| && At(d, p, SiteBytes(nodes))
    ensures ReadNodes(|nodes|, d, p) == nodes
  {
    forall i | 0 <= i < |nodes|
      ensures ReadNodes(|nodes|, d, p)[i] == nodes[i]
    {
      NodeAt(nodes, d, p, i);
      ReadNodeBack(nodes[i], d, p + 16 * i);
    }
  }

  /** The sum of the `n` count bytes at `c`. */
  function Sum(n: nat, d: Bytes, c: nat): nat
    requires c + n <= |d|
  {
    if n == 0 then 0 else Sum(n - 1, d, c) + d[c + n - 1]
  }

  /** The nodes at `p` of the `n` sites whose counts are at `c`. */
  function ReadSites(n: nat, d: Bytes, c: nat, p: nat): seq<seq<Node>>
    requires c + n <= |d| && p + 16 * Sum(n, d, c) <= |d|
  {
    if n == 0 then []
    else ReadSites(n - 1, d, c, p) + [ReadNodes(d[c + n - 1], d, p + 16 * Sum(n - 1, d, c))]
  }

  /** `d` has the counts of the sites at `c`. */
  predicate CountsAt(sites: seq<seq<Node>>, d: Bytes, c: nat) {
    c + |sites| <= |d| && forall i :: 0 <= i < |sites| ==> d[c + i] == |sites[i]|
  }

  lemma CountsAre(sites: seq<seq<Node>>, d: Bytes, c: nat)
    requires ShortLists(sites) && At(d, c, CountBytes(sites))
    ensures CountsAt(sites, d, c)
  {
    var b := CountBytes(sites);
    AtIs(d, c, b);
    assert forall i :: 0 <= i < |sites| ==> d[c + i] == d[c..c + |b|][i] == b[i] == |sites[i]|;
  }

  lemma {:induction false} SumIs(sites: seq<seq<Node>>, n: nat, d: Bytes, c: nat)
    requires CountsAt(sites, d, c) && n <= |sites|
    ensures Sum(n, d, c) == NodeCount(sites, n)
  {
    if n > 0 {
      SumIs(sites, n - 1, d, c);
      assert d[c + (n - 1)] == |sites[n - 1]|;
    }
  }

  lemma SiteAt(sites: seq<seq<Node>>, d: Bytes, p: nat, i: nat, q: nat)
    requires At(d, p, SitesBytes(sites)) && i < |sites| && q == p + 16 * NodeCount(sites, i)
    ensures At(d, q, SiteBytes(sites[i]))
  {
    SitesSize(sites, i);
    FlatInside(d, p, SiteParts(sites), i, 16 * NodeCount(sites, i), q);
  }

  lemma ReadSitesStep(n: nat, d: Bytes, c: nat, p: nat, k: nat, q: nat, before: seq<seq<Node>>, last: seq<Node>,
      all: seq<seq<Node>>)
    requires 0 < n && c + n <= |d| && p + 16 * Sum(n, d, c) <= |d|
    requires d[c + n - 1] == k && q == p + 16 * Sum(n - 1, d, c) && q + 16 * k <= |d|
    requires ReadSites(n - 1, d, c, p) == before && ReadNodes(k, d, q) == last && all == before + [last]
    ensures ReadSites(n, d, c, p) == all
  {
  }

  lemma {:induction false} ReadSitesBack(sites: seq<seq<Node>>, n: nat, d: Bytes, c: nat, p: nat, first: seq<seq<Node>>)
    requires CountsAt(sites, d, c) && At(d, p, SitesBytes(sites)) && n <= |sites| && p + 16 * NodeCount(sites, n) <= |d|
    requires first == sites[..n]
    ensures Sum(n, d, c) == NodeCount(sites, n)
    ensures ReadSites(n, d, c, p) == first
  {
    SumIs(sites, n, d, c);
    if n > 0 {
      SumIs(sites, n - 1, d, c);
      var before, last := sites[..n - 1], sites[n - 1];
      ReadSitesBack(sites, n - 1, d, c, p, before);
      assert d[c + (n - 1)] == |last|;
      var q := p + 16 * NodeCount(sites, n - 1);
      SiteAt(sites, d, p, n - 1, q);
      ReadNodesBack(last, d, q);
      assert first == before + [last];
      ReadSitesStep(n, d, c, p, |last|, q, before, last, first);
    }
  }

  datatype KindData = KindData(kind: nat, sites: seq<seq<Node>>)

  datatype Found<T> = Found(value: T, end: nat) | Truncated

  /** One value kind: its number, its sites and their counts, padding, and the nodes. */
  function ReadKind(d: Bytes, p: nat): Found<KindData> {
    if p + 8 > |d| then Truncated else ReadKindOf(ReadInt(4, d, p), ReadInt(4, d, p + 4), d, p + 8)
  }

  function ReadKindOf(kind: nat, n: nat, d: Bytes, c: nat): Found<KindData> {
    var p := c + n + Gap(n);
    if p > |d| || p + 16 * Sum(n, d, c) > |d| then Truncated
    else Found(KindData(kind, ReadSites(n, d, c, p)), p + 16 * Sum(n, d, c))
  }

  lemma ReadKindIs(kind: nat, n: nat, d: Bytes, c: nat, p: nat, total: nat, sites: seq<seq<Node>>, end: nat)
    requires p == c + n + Gap(n) && end == p + 16 * total <= |d| && Sum(n, d, c) == total
        && ReadSites(n, d, c, p) == sites
    ensures ReadKindOf(kind, n, d, c) == Found(KindData(kind, sites), end)
  {
  }

  lemma ReadKindRest(kind: nat, sites: seq<seq<Node>>, d: Bytes, c: nat, p: nat, end: nat)
    requires ShortLists(sites) && At(d, c, CountBytes(sites)) && At(d, p, SitesBytes(sites))
    requires p == c + |sites| + Gap(|sites|) && end == p + 16 * NodeCount(sites, |sites|) <= |d|
    ensures ReadKindOf(kind, |sites|, d, c) == Found(KindData(kind, sites), end)
  {
    CountsAre(sites, d, c);
    ReadSitesBack(sites, |sites|, d, c, p, sites);
    ReadKindIs(kind, |sites|, d, c, p, NodeCount(sites, |sites|), sites, end);
  }

  lemma ReadKindBack(kind: nat, sites: seq<seq<Node>>, mem: Bytes, at: nat, d: Bytes, p: nat, end: nat)
    requires kind < 2 && 0 < |sites| < 0x1_0000 && ShortLists(sites)
    requires At(d, p, KindBytes(kind, sites, mem, at)) && end == p + KindSize(sites)
    ensures ReadKind(d, p) == Found(KindData(kind, sites), end)
  {
    var n := |sites|;
    var s := p + 8 + n + Gap(n);
    KindBytesAre(kind, sites, mem, at, Skipped(mem, at + 8 + n, Gap(n)));
    AtSplit5(d, p, LE(4, kind), p + 4, LE(4, n), p + 8, CountBytes(sites), p + 8 + n,
        Skipped(mem, at + 8 + n, Gap(n)), s, SitesBytes(sites));
    ReadInt4(kind, d, p);
    ReadInt4(n, d, p + 4);
    ReadKindRest(kind, sites, d, p + 8, s, end);
  }

  function ReadKinds(n: nat, d: Bytes, p: nat): Found<seq<KindData>> {
    if n == 0 then Found([], p)
    else
      match ReadKind(d, p)
      case Truncated => Truncated
      case Found(k, next) =>
        match ReadKinds(n - 1, d, next)
        case Truncated => Truncated
        case Found(ks, end) => Found([k] + ks, end)
  }

  lemma OneKind(d: Bytes, p: nat, k: KindData, end: nat)
    requires ReadKind(d, p) == Found(k, end)
    ensures ReadKinds(1, d, p) == Found([k], end)
  {
    assert ReadKinds(0, d, end) == Found([], end);
    assert [k] + [] == [k];
  }

  lemma TwoKinds(d: Bytes, p: nat, k: KindData, next: nat, l: KindData, end: nat)
    requires ReadKind(d, p) == Found(k, next) && ReadKind(d, next) == Found(l, end)
    ensures ReadKinds(2, d, p) == Found([k] + [l], end)
  {
    OneKind(d, next, l, end);
  }

  datatype Block = Block(totalSize: nat, kinds: seq<KindData>)

  /** The value data of one record. */
  function ReadBlock(d: Bytes, p: nat): Found<Block> {
    if p + 8 > |d| then Truncated
    else
      match ReadKinds(ReadInt(4, d, p + 4), d, p + 8)
      case Truncated => Truncated
      case Found(ks, end) => Found(Block(ReadInt(4, d, p), ks), end)
  }

  function KindsWritten(s0: seq<seq<Node>>, s1: seq<seq<Node>>): seq<KindData> {
    (if |s0| > 0 then [KindData(0, s0)] else []) + (if |s1| > 0 then [KindData(1, s1)] else [])
  }

  /** The kinds that are there, one or both. */
  lemma ReadKindsFrom(s0: seq<seq<Node>>, s1: seq<seq<Node>>, d: Bytes, p: nat, e0: nat, e1: nat)
    requires if |s0| > 0 then ReadKind(d, p) == Found(KindData(0, s0), e0) else p == e0
    requires if |s1| > 0 then ReadKind(d, e0) == Found(KindData(1, s1), e1) else e0 == e1
    requires |s0| + |s1| > 0
    ensures ReadKinds(if |s0| > 0 && |s1| > 0 then 2 else 1, d, p) == Found(KindsWritten(s0, s1), e1)
  {
    assert [KindData(0, s0)] + [] == [KindData(0, s0)] && [] + [KindData(1, s1)] == [KindData(1, s1)];
    if |s0| == 0 {
      OneKind(d, e0, KindData(1, s1), e1);
    } else if |s1| == 0 {
      OneKind(d, p, KindData(0, s0), e0);
    } else {
      TwoKinds(d, p, KindData(0, s0), e0, KindData(1, s1), e1);
    }
  }

  lemma ReadBothKinds(s0: seq<seq<Node>>, s1: seq<seq<Node>>, mem: Bytes, a0: nat, a1: nat, d: Bytes, p: nat,
      e0: nat, e1: nat)
    requires ShortLists(s0) && ShortLists(s1) && |s0| < 0x1_0000 && |s1| < 0x1_0000 && |s0| + |s1| > 0
    requires At(d, p, KindBytes(0, s0, mem, a0)) && e0 == p + KindSize(s0)
    requires At(d, e0, KindBytes(1, s1, mem, a1)) && e1 == e0 + KindSize(s1)
    ensures ReadKinds(if |s0| > 0 && |s1| > 0 then 2 else 1, d, p) == Found(KindsWritten(s0, s1), e1)
  {
    if |s0| > 0 {
      ReadKindBack(0, s0, mem, a0, d, p, e0);
    }
    if |s1| > 0 {
      ReadKindBack(1, s1, mem, a1, d, e0, e1);
    }
    ReadKindsFrom(s0, s1, d, p, e0, e1);
  }

  lemma ReadKindsOf(s0: seq<seq<Node>>, s1: seq<seq<Node>>, mem: Bytes, a0: nat, a1: nat, d: Bytes, p: nat,
      e0: nat, e1: nat, both: Bytes)
    requires |s0| < 0x1_0000 && |s1| < 0x1_0000 && ShortLists(s0) && ShortLists(s1) && |s0| + |s1| > 0
    requires At(d, p, both) && both == KindBytes(0, s0, mem, a0) + KindBytes(1, s1, mem, a1)
    requires e0 == p + KindSize(s0) && e1 == e0 + KindSize(s1)
    ensures ReadKinds(if |s0| > 0 && |s1| > 0 then 2 else 1, d, p) == Found(KindsWritten(s0, s1), e1)
  {
    AtSplit(d, p, KindBytes(0, s0, mem, a0), e0, KindBytes(1, s1, mem, a1));
    ReadBothKinds(s0, s1, mem, a0, a1, d, p, e0, e1);
  }

  lemma ReadAllKinds(s0: seq<seq<Node>>, s1: seq<seq<Node>>, mem: Bytes, at: nat, d: Bytes, p: nat, end: nat)
    requires |s0| < 0x1_0000 && |s1| < 0x1_0000 && ShortLists(s0) && ShortLists(s1) && |s0| + |s1| > 0
    requires At(d, p, BothKinds(s0, s1, mem, at)) && end == p + KindSize(s0) + KindSize(s1)
    ensures ReadKinds(if |s0| > 0 && |s1| > 0 then 2 else 1, d, p) == Found(KindsWritten(s0, s1), end)
  {
    ReadKindsOf(s0, s1, mem, at, at + KindSize(s0), d, p, p + KindSize(s0), end, BothKinds(s0, s1, mem, at));
  }

  lemma ReadKindsBack(r: ProfData, mem: Bytes, at: nat, d: Bytes, p: nat)
    requires RecordOk(r) && r.sites0 + r.sites1 > 0
    requires At(d, p, KindsBytes(r, mem, at))
    ensures ReadKinds(KindsOf(r), d, p) == Found(KindsWritten(Sites(r, 0), Sites(r, 1)), p + KindsSize(r))
  {
    ReadAllKinds(Sites(r, 0), Sites(r, 1), mem, at, d, p, p + KindsSize(r));
  }

  lemma {:induction false} FewNodes(sites: seq<seq<Node>>, n: nat)
    requires ShortLists(sites) && n <= |sites|
    ensures NodeCount(sites, n) <= 255 * n
  {
    if n > 0 {
      FewNodes(sites, n - 1);
    }
  }

  lemma BlockFits(r: ProfData)
    requires RecordOk(r)
    ensures ValueSize(r) < 0x1_0000_0000
  {
    FewNodes(Sites(r, 0), r.sites0);
    FewNodes(Sites(r, 1), r.sites1);
  }

  /** The block at `p` reads as what the record has: its size, and every value with its count. */
  predicate ReadsBack(r: ProfData, d: Bytes, p: nat)
    requires RecordOk(r)
  {
    ReadBlock(d, p) == Found(Block(ValueSize(r), KindsWritten(Sites(r, 0), Sites(r, 1))), p + ValueSize(r))
  }

  lemma ReadBlockBack(r: ProfData, mem: Bytes, at: nat, d: Bytes, p: nat)
    requires RecordOk(r) && r.sites0 + r.sites1 > 0
    requires At(d, p, ValueBytes(r, mem, at))
    ensures ReadsBack(r, d, p)
  {
    AtSplit3(d, p, LE(4, ValueSize(r)), p + 4, LE(4, KindsOf(r)), p + 8, KindsBytes(r, mem, at + 8));
    BlockFits(r);
    ReadInt4(ValueSize(r), d, p);
    ReadInt4(KindsOf(r), d, p + 4);
    ReadKindsBack(r, mem, at + 8, d, p + 8);
  }

  lemma ValuesInside(rs: seq<ProfData>, i: nat, mem: Bytes, at: nat, d: Bytes, q: nat)
    requires RecordsOk(rs) && i < |rs| && At(d, at, ValuesBytes(rs, |rs|, mem, at)) && q == ValuePlace(rs, i, at)
    ensures At(d, q, ValueBytes(rs[i], mem, q))
  {
    var parts := ValueParts(rs, mem, at);
    FlatValues(rs, parts, i);
    FlatInside(d, at, parts, i, ValuesSize(rs, i), q);
  }

  lemma OwnValuesIn(rs: seq<ProfData>, i: nat, mem: Bytes, at: nat, d: Bytes, q: nat)
    requires RecordsOk(rs) && i < |rs| && rs[i].sites0 + rs[i].sites1 > 0 && q == ValuePlace(rs, i, at)
    requires At(d, at, ValuesBytes(rs, |rs|, mem, at))
    ensures ReadsBack(rs[i], d, q)
  {
    ValuesInside(rs, i, mem, at, d, q);
    ReadBlockBack(rs[i], mem, q, d, q);
  }

  /** In the dump, record by record, the reader finds every value with its count. */
  lemma OwnValues(p: Profile, mem: Bytes, i: nat)
    requires RecordsOk(p.records) && i < |p.records| && p.records[i].sites0 + p.records[i].sites1 > 0
    ensures ReadsBack(p.records[i], Dump(p, mem), ValuePlace(p.records, i, ValuesAt(p)))
  {
    DumpParts(p, mem);
    OwnValuesIn(p.records, i, mem, ValuesAt(p), Dump(p, mem), ValuePlace(p.records, i, ValuesAt(p)));
  }
}
