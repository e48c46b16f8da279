/** A parser of whole dumps that knows nothing but the bytes: it takes every place from the
    header and the records it has read. */
module ProfParser {
  import opened Bits
  import opened ByteSpans
  import opened ValueProfile
  import opened ProfFormat
  import opened ProfReader

  datatype Rec = Rec(
    funcMd5: nat, funcHash: nat, offset: nat, offsetBitmaps: nat, funcPtr: nat, valuesPtr: nat,
    numCounters: nat, sites0: nat, sites1: nat)

  datatype Parsed = Parsed(records: seq<Rec>, counters: seq<Bytes>, names: Bytes, values: seq<seq<KindData>>)

  // ----- The parser -----

  function ReadRec(d: Bytes, p: nat): Rec
    requires p + 64 <= |d|
  {
    Rec(ReadInt(8, d, p), ReadInt(8, d, p + 8), ReadInt(8, d, p + 16), ReadInt(8, d, p + 24), ReadInt(8, d, p + 32),
        ReadInt(8, d, p + 40), ReadInt(4, d, p + 48), ReadInt(2, d, p + 52), ReadInt(2, d, p + 54))
  }

  function ReadRecs(n: nat, d: Bytes): (recs: seq<Rec>)
    requires 112 + 64 * n <= |d|
    ensures |recs| == n
  {
    seq(n, i requires 0 <= i < n => ReadRec(d, 112 + 64 * i))
  }

  /** The counters of the first `n` records, each where its record says. */
  function ReadCounters(recs: seq<Rec>, n: nat, d: Bytes): Option<seq<Bytes>>
    requires n <= |recs|
  {
    if n == 0 then Some([])
    else
      match ReadCounters(recs, n - 1, d)
      case None => None
      case Some(cs) =>
        var r := recs[n - 1];
        var p := 112 + 64 * (n - 1) + r.offset;
        if p + 8 * r.numCounters > |d| then None else Some(cs + [d[p..p + 8 * r.numCounters]])
  }

  /** The value data of the records from the `i`-th on, one block behind the other. */
  function ReadValues(recs: seq<Rec>, i: nat, d: Bytes, p: nat): Option<seq<seq<KindData>>>
    requires i <= |recs|
    decreases |recs| - i
  {
    if i == |recs| then Some([])
    else if recs[i].sites0 == 0 && recs[i].sites1 == 0 then
      match ReadValues(recs, i + 1, d, p)
      case None => None
      case Some(vs) => Some([[]] + vs)
    else
      match ReadBlock(d, p)
      case Truncated => None
      case Found(b, end) =>
        if p + b.totalSize != end then None
        else
          match ReadValues(recs, i + 1, d, end)
          case None => None
          case Some(vs) => Some([b.kinds] + vs)
  }

  function ParseDump(d: Bytes): Option<Parsed> {
    if |d| < 112 || ReadInt(8, d, 0) != MAGIC || ReadInt(8, d, 8) != VERSION then None
    else ParseBody(d, ReadInt(8, d, 24), ReadInt(8, d, 40), ReadInt(8, d, 72))
  }

  /** Everything behind a header with these counts. */
  function ParseBody(d: Bytes, numData: nat, numCounters: nat, namesSize: nat): Option<Parsed> {
    var names := 112 + 64 * numData + 8 * numCounters;
    if names + namesSize > |d| then None
    else ParseParts(d, ReadRecs(numData, d), names, names + namesSize, names + namesSize + Gap(namesSize))
  }

  /** What the records lead to, with the names at `names..end` and the value data at `values`. */
  function ParseParts(d: Bytes, recs: seq<Rec>, names: nat, end: nat, values: nat): Option<Parsed>
    requires names <= end <= |d|
  {
    Together(recs, ReadCounters(recs, |recs|, d), d[names..end], ReadValues(recs, 0, d, values))
  }

  function Together(recs: seq<Rec>, cs: Option<seq<Bytes>>, names: Bytes, vs: Option<seq<seq<KindData>>>)
    : Option<Parsed>
  {
    if cs.None? || vs.None? then None else Some(Parsed(recs, cs.value, names, vs.value))
  }

  // ----- What it should find -----

  function RecOf(rs: seq<ProfData>, i: nat): Rec
    requires i < |rs|
  {
    var r := rs[i];
    var offset := Offset(rs, i);
    Rec(r.funcMd5, r.funcHash, if offset < 0 then 0 else offset, r.offsetBitmaps, r.funcPtr, r.valuesPtr,
        r.numCounters, r.sites0, r.sites1)
  }

  function RecsOf(rs: seq<ProfData>): (recs: seq<Rec>)
    ensures |recs| == |rs|
  {
    seq(|rs|, i requires 0 <= i < |rs| => RecOf(rs, i))
  }

  function KindsAt(rs: seq<ProfData>, i: nat): seq<KindData>
    requires RecordsOk(rs) && i < |rs|
  {
    KindsWritten(Sites(rs[i], 0), Sites(rs[i], 1))
  }

  function ValuesFrom(rs: seq<ProfData>, i: nat): (vs: seq<seq<KindData>>)
    requires RecordsOk(rs) && i <= |rs|
    ensures |vs| == |rs| - i
    decreases |rs| - i
  {
    if i == |rs| then [] else [KindsAt(rs, i)] + ValuesFrom(rs, i + 1)
  }

  /** The contents of a profile: its records with all their fields, their counters, the names
      and every site's values with their counts. */
  function ContentsOf(p: Profile): Parsed
    requires RecordsOk(p.records)
  {
    Parsed(RecsOf(p.records), p.counters, p.names, ValuesFrom(p.records, 0))
  }

  // ----- It finds it -----

  lemma ReadInt2(v: nat, d: Bytes, p: nat)
    requires v < 0x1_0000 && At(d, p, LE(2, v))
    ensures p + 2 <= |d| && ReadInt(2, d, p) == v
  {
    AtIs(d, p, LE(2, v));
    assert Pow256(2) == 256 * Pow256(1) && Pow256(1) == 256 * Pow256(0);
    FromToLE(2, v);
  }

  lemma FrontFields(r: ProfData, d: Bytes, p: nat)
    requires At(d, p, RecordHead(r)) && At(d, p + 24, RecordMiddle(r)) && p + 64 <= |d|
    ensures ReadInt(8, d, p) == r.funcMd5 && ReadInt(8, d, p + 8) == r.funcHash
    ensures ReadInt(8, d, p + 24) == r.offsetBitmaps && ReadInt(8, d, p + 32) == r.funcPtr
    ensures ReadInt(8, d, p + 40) == r.valuesPtr
  {
    AtSplit(d, p, LE(8, r.funcMd5), p + 8, LE(8, r.funcHash));
    AtSplit3(d, p + 24, LE(8, r.offsetBitmaps), p + 32, LE(8, r.funcPtr), p + 40, LE(8, r.valuesPtr));
    ReadInt8(r.funcMd5, d, p);
    ReadInt8(r.funcHash, d, p + 8);
    ReadInt8(r.offsetBitmaps, d, p + 24);
    ReadInt8(r.funcPtr, d, p + 32);
    ReadInt8(r.valuesPtr, d, p + 40);
  }

  lemma BackFields(r: ProfData, pad: Bytes, d: Bytes, p: nat)
    requires RecordOk(r) && At(d, p + 52, RecordTail(r) + pad) && p + 64 <= |d|
    ensures ReadInt(2, d, p + 52) == r.sites0 && ReadInt(2, d, p + 54) == r.sites1
  {
    AtSplit(d, p + 52, RecordTail(r), p + 60, pad);
    AtSplit3(d, p + 52, LE(2, r.sites0), p + 54, LE(2, r.sites1), p + 56, LE(4, 0));
    ReadInt2(r.sites0, d, p + 52);
    ReadInt2(r.sites1, d, p + 54);
  }

  lemma ReadRecBack(r: ProfData, offset: nat, pad: Bytes, d: Bytes, p: nat)
    requires RecordOk(r) && |pad| == 4 && offset < 0x1_0000_0000_0000_0000 && At(d, p, RecordBytes(r, offset, pad))
    ensures p + 64 <= |d|
    ensures ReadRec(d, p) == Rec(r.funcMd5, r.funcHash, offset, r.offsetBitmaps, r.funcPtr, r.valuesPtr,
                                 r.numCounters, r.sites0, r.sites1)
  {
    AtSplit5(d, p, RecordHead(r), p + 16, LE(8, offset), p + 24, RecordMiddle(r), p + 48, LE(4, r.numCounters),
             p + 52, RecordTail(r) + pad);
    FrontFields(r, d, p);
    BackFields(r, pad, d, p);
    ReadInt8(offset, d, p + 16);
    ReadInt4(r.numCounters, d, p + 48);
  }

  lemma ReadRecsBack(p: Profile, mem: Bytes, d: Bytes)
    requires RecordsOk(p.records) && At(d, 112, RecordsBytes(p, mem)) && |d| < 0x1_0000_0000_0000_0000
    requires forall i :: 0 <= i < |p.records| ==> 0 <= Offset(p.records, i) <= |d|
    ensures 112 + 64 * |p.records| <= |d| && ReadRecs(|p.records|, d) == RecsOf(p.records)
  {
    var rs := p.records;
    forall i | 0 <= i < |rs|
      ensures ReadRecs(|rs|, d)[i] == RecsOf(rs)[i]
    {
      RecordAt(d, p, mem, i);
      ReadRecBack(rs[i], Offset(rs, i), Skipped(mem, 172 + 64 * i, 4), d, 112 + 64 * i);
    }
  }

  /** The `i`-th record leads to `counters`. */
  predicate RecLeadsTo(recs: seq<Rec>, i: nat, d: Bytes, counters: Bytes)
    requires i < |recs|
  {
    var p := 112 + 64 * i + recs[i].offset;
    p + 8 * recs[i].numCounters <= |d| && d[p..p + 8 * recs[i].numCounters] == counters
  }

  lemma {:induction false} ReadCountersBack(recs: seq<Rec>, cs: seq<Bytes>, n: nat, first: seq<Bytes>, d: Bytes)
    requires |cs| == |recs| && n <= |recs| && first == cs[..n]
    requires forall i :: 0 <= i < |recs| ==> RecLeadsTo(recs, i, d, cs[i])
    ensures ReadCounters(recs, n, d) == Some(first)
  {
    if n > 0 {
      var before := cs[..n - 1];
      ReadCountersBack(recs, cs, n - 1, before, d);
      assert first == before + [cs[n - 1]];
      CounterStep(recs, n, d, before, cs[n - 1], first);
    }
  }

  lemma CounterStep(recs: seq<Rec>, n: nat, d: Bytes, before: seq<Bytes>, last: Bytes, all: seq<Bytes>)
    requires 0 < n <= |recs| && ReadCounters(recs, n - 1, d) == Some(before) && RecLeadsTo(recs, n - 1, d, last)
    requires all == before + [last]
    ensures ReadCounters(recs, n, d) == Some(all)
  {
  }

  lemma OneCounter(recs: seq<Rec>, i: nat, d: Bytes, counters: Bytes)
    requires i < |recs| && 112 + 64 * |recs| <= |d| && recs[i] == ReadRec(d, 112 + 64 * i)
    requires LeadsTo(d, 112 + 64 * i, counters)
    ensures RecLeadsTo(recs, i, d, counters)
  {
    AtIs(d, 112 + 64 * i + recs[i].offset, counters);
  }

  lemma {:induction false} ReadValuesBack(rs: seq<ProfData>, i: nat, d: Bytes, at: nat, p: nat)
    requires RecordsOk(rs) && i <= |rs| && p == ValuePlace(rs, i, at)
    requires forall j :: 0 <= j < |rs| && rs[j].sites0 + rs[j].sites1 > 0 ==> ReadsBack(rs[j], d, ValuePlace(rs, j, at))
    ensures ReadValues(RecsOf(rs), i, d, p) == Some(ValuesFrom(rs, i))
    decreases |rs| - i
  {
    if i < |rs| {
      ReadValuesBack(rs, i + 1, d, at, ValuePlace(rs, i + 1, at));
      ReadOneValue(rs, i, d, p, ValuePlace(rs, i + 1, at));
    }
  }

  lemma ReadOneValue(rs: seq<ProfData>, i: nat, d: Bytes, p: nat, next: nat)
    requires RecordsOk(rs) && i < |rs| && next == p + ValueSize(rs[i])
    requires rs[i].sites0 + rs[i].sites1 > 0 ==> ReadsBack(rs[i], d, p)
    requires ReadValues(RecsOf(rs), i + 1, d, next) == Some(ValuesFrom(rs, i + 1))
    ensures ReadValues(RecsOf(rs), i, d, p) == Some([KindsAt(rs, i)] + ValuesFrom(rs, i + 1))
  {
    if rs[i].sites0 + rs[i].sites1 == 0 {
      assert KindsAt(rs, i) == [];
      NoBlock(RecsOf(rs), i, d, p, ValuesFrom(rs, i + 1));
    } else {
      OneBlock(RecsOf(rs), i, d, p, next, KindsAt(rs, i), ValuesFrom(rs, i + 1));
    }
  }

  lemma NoBlock(recs: seq<Rec>, i: nat, d: Bytes, p: nat, vs: seq<seq<KindData>>)
    requires i < |recs| && recs[i].sites0 == 0 && recs[i].sites1 == 0
    requires ReadValues(recs, i + 1, d, p) == Some(vs)
    ensures ReadValues(recs, i, d, p) == Some([[]] + vs)
  {
  }

  lemma OneBlock(recs: seq<Rec>, i: nat, d: Bytes, p: nat, next: nat, kinds: seq<KindData>, vs: seq<seq<KindData>>)
    requires i < |recs| && recs[i].sites0 + recs[i].sites1 > 0 && p <= next
    requires ReadBlock(d, p) == Found(Block(next - p, kinds), next)
    requires ReadValues(recs, i + 1, d, next) == Some(vs)
    ensures ReadValues(recs, i, d, p) == Some([kinds] + vs)
  {
  }

  /** Below 4 GiB the header's number of counters is exact. */
  lemma CountersExact(p: Profile)
    requires RecordsOk(p.records) && Paired(p.records, p.counters) && FullSize(p) < 0x1_0000_0000
    ensures Wrap32(SumCounters(p.records, |p.records|)) == SumCounters(p.records, |p.records|)
    ensures NamesAt(p) == 112 + 64 * |p.records| + 8 * SumCounters(p.records, |p.records|)
  {
    FlatSum(p.records, p.counters, |p.records|);
    OneWrap(SumCounters(p.records, |p.records|), U32);
  }

  lemma {:induction false} SumUpTo(rs: seq<ProfData>, i: nat, n: nat)
    requires i <= n <= |rs|
    ensures SumCounters(rs, i) <= SumCounters(rs, n)
  {
    if i < n {
      SumUpTo(rs, i, n - 1);
    }
  }

  lemma OffsetsInside(p: Profile, i: nat)
    requires RecordsOk(p.records) && Paired(p.records, p.counters) && i < |p.records|
    ensures 0 <= Offset(p.records, i) <= FullSize(p)
  {
    FlatSum(p.records, p.counters, |p.records|);
    SumUpTo(p.records, i, |p.records|);
  }

  lemma ParsePartsIs(d: Bytes, at: nat, end: nat, values: nat, recs: seq<Rec>, cs: seq<Bytes>, names: Bytes,
      vs: seq<seq<KindData>>)
    requires at <= end <= |d| && ReadCounters(recs, |recs|, d) == Some(cs)
    requires d[at..end] == names && ReadValues(recs, 0, d, values) == Some(vs)
    ensures ParseParts(d, recs, at, end, values) == Some(Parsed(recs, cs, names, vs))
  {
  }

  lemma ParseBodyIs(d: Bytes, n: nat, c: nat, s: nat, at: nat, end: nat, values: nat, recs: seq<Rec>,
      all: Option<Parsed>)
    requires at == 112 + 64 * n + 8 * c && end == at + s <= |d| && values == end + Gap(s)
    requires ReadRecs(n, d) == recs && ParseParts(d, recs, at, end, values) == all
    ensures ParseBody(d, n, c, s) == all
  {
  }

  lemma HeaderParsedIn(d: Bytes, n: nat, c: nat, s: nat)
    requires |d| >= 112 && At(d, 0, HeaderBytes(n, c, s))
    requires 64 * n < 0x1_0000_0000_0000_0000 && c < 0x1_0000_0000_0000_0000 && s < 0x1_0000_0000_0000_0000
    ensures ParseDump(d) == ParseBody(d, n, c, s)
  {
    HeaderWordAt(d, n, c, s, 0);
    HeaderWordAt(d, n, c, s, 1);
    HeaderWordAt(d, n, c, s, 3);
    HeaderWordAt(d, n, c, s, 5);
    HeaderWordAt(d, n, c, s, 9);
    ParseDumpIs(d, n, c, s);
  }

  lemma HeaderParsed(p: Profile, mem: Bytes)
    requires RecordsOk(p.records) && FullSize(p) < 0x1_0000_0000
    ensures |Dump(p, mem)| >= 112
    ensures ParseDump(Dump(p, mem))
         == ParseBody(Dump(p, mem), |p.records|, Wrap32(SumCounters(p.records, |p.records|)), |p.names|)
  {
    DumpParts(p, mem);
    HeaderFits(p);
    HeaderParsedIn(Dump(p, mem), |p.records|, Wrap32(SumCounters(p.records, |p.records|)), |p.names|);
  }

  lemma ParseDumpIs(d: Bytes, n: nat, c: nat, s: nat)
    requires |d| >= 112 && ReadInt(8, d, 0) == MAGIC && ReadInt(8, d, 8) == VERSION
    requires ReadInt(8, d, 24) == n && ReadInt(8, d, 40) == c && ReadInt(8, d, 72) == s
    ensures ParseDump(d) == ParseBody(d, n, c, s)
  {
  }

  lemma RecordsParsed(p: Profile, mem: Bytes, d: Bytes)
    requires RecordsOk(p.records) && Paired(p.records, p.counters) && FullSize(p) < 0x1_0000_0000 && d == Dump(p, mem)
    ensures 112 + 64 * |p.records| <= |d| && ReadRecs(|p.records|, d) == RecsOf(p.records)
  {
    DumpParts(p, mem);
    forall i | 0 <= i < |p.records|
      ensures 0 <= Offset(p.records, i) <= |d|
    {
      OffsetsInside(p, i);
    }
    ReadRecsBack(p, mem, d);
  }

  lemma RecordLeads(p: Profile, mem: Bytes, d: Bytes, i: nat)
    requires RecordsOk(p.records) && Paired(p.records, p.counters) && FullSize(p) < 0x1_0000_0000 && d == Dump(p, mem)
    requires i < |p.records|
    ensures RecLeadsTo(RecsOf(p.records), i, d, p.counters[i])
  {
    RecordsParsed(p, mem, d);
    ReadRecAt(|p.records|, d, i, RecsOf(p.records));
    OwnCounters(p, mem, i);
    OneCounter(RecsOf(p.records), i, d, p.counters[i]);
  }

  lemma ReadRecAt(n: nat, d: Bytes, i: nat, recs: seq<Rec>)
    requires i < n && 112 + 64 * n <= |d| && ReadRecs(n, d) == recs
    ensures |recs| == n && recs[i] == ReadRec(d, 112 + 64 * i)
  {
  }

  lemma CountersParsed(p: Profile, mem: Bytes, d: Bytes)
    requires RecordsOk(p.records) && Paired(p.records, p.counters) && FullSize(p) < 0x1_0000_0000 && d == Dump(p, mem)
    ensures ReadCounters(RecsOf(p.records), |p.records|, d) == Some(p.counters)
  {
    forall i | 0 <= i < |p.records|
      ensures RecLeadsTo(RecsOf(p.records), i, d, p.counters[i])
    {
      RecordLeads(p, mem, d, i);
    }
    assert p.counters[..|p.records|] == p.counters;
    ReadCountersBack(RecsOf(p.records), p.counters, |p.records|, p.counters, d);
  }

  lemma NamesParsed(p: Profile, mem: Bytes, d: Bytes)
    requires RecordsOk(p.records) && d == Dump(p, mem)
    ensures NamesAt(p) + |p.names| <= |d| && d[NamesAt(p)..NamesAt(p) + |p.names|] == p.names
  {
    DumpParts(p, mem);
    AtSplit(d, NamesAt(p), p.names, NamesAt(p) + |p.names|, LE(Gap(|p.names|), 0));
    AtIs(d, NamesAt(p), p.names);
  }

  lemma ValuesParsed(p: Profile, mem: Bytes, d: Bytes)
    requires RecordsOk(p.records) && d == Dump(p, mem)
    ensures ReadValues(RecsOf(p.records), 0, d, ValuesAt(p)) == Some(ValuesFrom(p.records, 0))
  {
    var rs := p.records;
    forall j | 0 <= j < |rs| && rs[j].sites0 + rs[j].sites1 > 0
      ensures ReadsBack(rs[j], d, ValuePlace(rs, j, ValuesAt(p)))
    {
      OwnValues(p, mem, j);
    }
    ReadValuesBack(rs, 0, d, ValuesAt(p), ValuesAt(p));
  }

  /** The parts are in `d` where the parser looks for them. */
  ghost predicate PartsFound(p: Profile, d: Bytes)
    requires RecordsOk(p.records)
  {
    && 112 + 64 * |p.records| <= |d| && ReadRecs(|p.records|, d) == RecsOf(p.records)
    && ReadCounters(RecsOf(p.records), |p.records|, d) == Some(p.counters)
    && NamesAt(p) + |p.names| <= |d| && d[NamesAt(p)..NamesAt(p) + |p.names|] == p.names
    && ReadValues(RecsOf(p.records), 0, d, ValuesAt(p)) == Some(ValuesFrom(p.records, 0))
  }

  lemma PartsParsed(p: Profile, mem: Bytes, d: Bytes)
    requires RecordsOk(p.records) && Paired(p.records, p.counters) && FullSize(p) < 0x1_0000_0000 && d == Dump(p, mem)
    ensures PartsFound(p, d)
  {
    RecordsParsed(p, mem, d);
    CountersParsed(p, mem, d);
    NamesParsed(p, mem, d);
    ValuesParsed(p, mem, d);
  }

  lemma BodyParsed(p: Profile, d: Bytes, c: nat)
    requires RecordsOk(p.records) && PartsFound(p, d) && NamesAt(p) == 112 + 64 * |p.records| + 8 * c
    ensures ParseBody(d, |p.records|, c, |p.names|) == Some(ContentsOf(p))
  {
    var at, end := NamesAt(p), NamesAt(p) + |p.names|;
    ParsePartsIs(d, at, end, ValuesAt(p), RecsOf(p.records), p.counters, p.names, ValuesFrom(p.records, 0));
    ParseBodyIs(d, |p.records|, c, |p.names|, at, end, ValuesAt(p), RecsOf(p.records), Some(ContentsOf(p)));
  }

  /** Parsing undoes dumping: for counter sections that pair with the records, the bytes of a
      dump below 4 GiB give back the whole profile. */
  lemma ParseUndoesDump(p: Profile, mem: Bytes)
    requires RecordsOk(p.records) && Paired(p.records, p.counters) && FullSize(p) < 0x1_0000_0000
    ensures ParseDump(Dump(p, mem)) == Some(ContentsOf(p))
  {
    HeaderParsed(p, mem);
    CountersExact(p);
    PartsParsed(p, mem, Dump(p, mem));
    BodyParsed(p, Dump(p, mem), SumCounters(p.records, |p.records|));
  }
}
