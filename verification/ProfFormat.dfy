/** The raw profile: its bytes and their sizes. All integers are little-endian. Bytes that the
    writer skips keep what the buffer held before, `mem`. */
module ProfFormat {
  import opened Bits
  import opened ByteSpans
  import opened ValueProfile

  // ----- The profile -----

  datatype ProfData = ProfData(
    funcMd5: Word, funcHash: Word, offsetBitmaps: Word, funcPtr: Word, valuesPtr: Word,
    numCounters: nat, sites0: nat, sites1: nat,
    values: Option<seq<seq<Node>>>)

  predicate ShortLists(sites: seq<seq<Node>>) {
    forall i :: 0 <= i < |sites| ==> |sites[i]| <= 255
  }

  /** Field widths, one list per site in the table, and lists as the profiler keeps them. */
  predicate RecordOk(r: ProfData) {
    && r.numCounters < 0x1_0000_0000 && r.sites0 < 0x1_0000 && r.sites1 < 0x1_0000
    && (r.values.Some? ==> |r.values.value| == r.sites0 + r.sites1 && ShortLists(r.values.value))
  }

  predicate RecordsOk(rs: seq<ProfData>) {
    forall i :: 0 <= i < |rs| ==> RecordOk(rs[i])
  }

  /** Data sections by the prefix of their names. */
  datatype Section = Data(rec: ProfData) | Counters(bytes: Bytes) | Names(bytes: Bytes) | OtherSection

  /** What `n` bytes of the buffer at `at` held before. */
  function Skipped(mem: Bytes, at: nat, n: nat): (b: Bytes)
    ensures |b| == n
  {
    seq(n, i requires 0 <= i => if at + i < |mem| then mem[at + i] else 0)
  }

  // Functions with a bound `n` are about the first `n` elements.

  function Records(ss: seq<Section>, n: nat): seq<ProfData>
    requires n <= |ss|
  {
    if n == 0 then [] else Records(ss, n - 1) + if ss[n - 1].Data? then [ss[n - 1].rec] else []
  }

  function CounterSections(ss: seq<Section>, n: nat): seq<Bytes>
    requires n <= |ss|
  {
    if n == 0 then [] else CounterSections(ss, n - 1) + if ss[n - 1].Counters? then [ss[n - 1].bytes] else []
  }

  /** The last names section. */
  function NamesOf(ss: seq<Section>, n: nat): Bytes
    requires n <= |ss|
  {
    if n == 0 then [] else if ss[n - 1].Names? then ss[n - 1].bytes else NamesOf(ss, n - 1)
  }

  // ----- Header and records -----

  const MAGIC: Word := 0xFF6C_7072_6F66_7281
  const VERSION: Word := 0x4100_0000_0000_0009

  function HeaderWords(numData: nat, numCounters: nat, namesSize: nat): (words: seq<int>)
    ensures |words| == 14
  {
    [MAGIC, VERSION, 0, numData, 0, numCounters, 0, 0, 0, namesSize, 64 * numData, 0, 0, 1]
  }

  function WordBytes(w: int): (b: Bytes)
    ensures |b| == 8
  {
    LE(8, w)
  }

  function WordParts(words: seq<int>): (parts: seq<Bytes>)
    ensures |parts| == |words| && forall i :: 0 <= i < |parts| ==> |parts[i]| == 8
  {
    seq(|words|, i requires 0 <= i < |words| => WordBytes(words[i]))
  }

  function HeaderBytes(numData: nat, numCounters: nat, namesSize: nat): (b: Bytes)
    ensures |b| == 112
  {
    var parts := WordParts(HeaderWords(numData, numCounters, namesSize));
    FlatEven(parts, 14, 8);
    Flat(parts, 14)
  }

  function SumCounters(rs: seq<ProfData>, n: nat): nat
    requires n <= |rs|
  {
    if n == 0 then 0 else SumCounters(rs, n - 1) + rs[n - 1].numCounters
  }

  /** The distance from the `i`-th record to its counters. */
  function Offset(rs: seq<ProfData>, i: nat): int
    requires i <= |rs|
  {
    64 * (|rs| - i) + 8 * SumCounters(rs, i)
  }

  /** The fields around the offset and the number of counters. */
  function RecordHead(r: ProfData): (b: Bytes)
    ensures |b| == 16
  {
    LE(8, r.funcMd5) + LE(8, r.funcHash)
  }

  function RecordMiddle(r: ProfData): (b: Bytes)
    ensures |b| == 24
  {
    LE(8, r.offsetBitmaps) + LE(8, r.funcPtr) + LE(8, r.valuesPtr)
  }

  function RecordTail(r: ProfData): (b: Bytes)
    ensures |b| == 8
  {
    LE(2, r.sites0) + LE(2, r.sites1) + LE(4, 0)
  }

  /** A record of 64 bytes, the last 4 of them padding. */
  function RecordBytes(r: ProfData, offset: int, pad: Bytes): (b: Bytes)
    requires |pad| == 4
    ensures |b| == 64
  {
    RecordHead(r) + LE(8, offset) + RecordMiddle(r) + LE(4, r.numCounters) + (RecordTail(r) + pad)
  }

  function RecordPart(rs: seq<ProfData>, i: nat, mem: Bytes): (b: Bytes)
    requires i < |rs|
    ensures |b| == 64
  {
    RecordBytes(rs[i], Offset(rs, i), Skipped(mem, 172 + 64 * i, 4))
  }

  function RecordParts(rs: seq<ProfData>, mem: Bytes): (parts: seq<Bytes>)
    ensures |parts| == |rs| && forall i :: 0 <= i < |parts| ==> |parts[i]| == 64
  {
    seq(|rs|, i requires 0 <= i < |rs| => RecordPart(rs, i, mem))
  }

  // ----- Value data -----

  function NodeBytes(n: Node): (b: Bytes)
    ensures |b| == 16
  {
    LE(8, n.value) + LE(8, n.count)
  }

  function NodeParts(nodes: seq<Node>): (parts: seq<Bytes>)
    ensures |parts| == |nodes| && forall i :: 0 <= i < |parts| ==> |parts[i]| == 16
  {
    seq(|nodes|, i requires 0 <= i < |nodes| => NodeBytes(nodes[i]))
  }

  function SiteBytes(nodes: seq<Node>): (b: Bytes)
    ensures |b| == 16 * |nodes|
  {
    FlatEven(NodeParts(nodes), |nodes|, 16);
    Flat(NodeParts(nodes), |nodes|)
  }

  function SiteParts(sites: seq<seq<Node>>): (parts: seq<Bytes>)
    ensures |parts| == |sites|
  {
    seq(|sites|, i requires 0 <= i < |sites| => SiteBytes(sites[i]))
  }

  function NodeCount(sites: seq<seq<Node>>, n: nat): nat
    requires n <= |sites|
  {
    if n == 0 then 0 else NodeCount(sites, n - 1) + |sites[n - 1]|
  }

  lemma {:induction false} SitesSize(sites: seq<seq<Node>>, n: nat)
    requires n <= |sites|
    ensures |Flat(SiteParts(sites), n)| == 16 * NodeCount(sites, n)
  {
    if n > 0 {
      SitesSize(sites, n - 1);
    }
  }

  function SitesBytes(sites: seq<seq<Node>>): (b: Bytes)
    ensures |b| == 16 * NodeCount(sites, |sites|)
  {
    SitesSize(sites, |sites|);
    Flat(SiteParts(sites), |sites|)
  }

  function CountBytes(sites: seq<seq<Node>>): (b: Bytes)
    ensures |b| == |sites|
  {
    seq(|sites|, i requires 0 <= i < |sites| => |sites[i]| % 256)
  }

  /** What is missing to a multiple of 8. */
  function Gap(n: nat): (g: nat)
    ensures g < 8
  {
    if n % 8 == 0 then 0 else 8 - n % 8
  }

  /** The sites of value kind 0 or 1; a record without a table has none but empty ones. */
  function Sites(r: ProfData, kind: nat): (sites: seq<seq<Node>>)
    requires RecordOk(r) && kind < 2
    ensures |sites| == (if kind == 0 then r.sites0 else r.sites1)
    ensures ShortLists(sites)
  {
    match r.values
    case None => seq(if kind == 0 then r.sites0 else r.sites1, _ => [])
    case Some(table) => if kind == 0 then table[..r.sites0] else table[r.sites0..]
  }

  function KindSize(sites: seq<seq<Node>>): nat {
    if |sites| == 0 then 0 else 8 + |sites| + Gap(|sites|) + 16 * NodeCount(sites, |sites|)
  }

  /** One value kind: its number, its sites and their counts, padding, and the nodes. */
  function KindParts(kind: nat, sites: seq<seq<Node>>, mem: Bytes, at: nat): (parts: seq<Bytes>)
    ensures |parts| == 5
  {
    [LE(4, kind), LE(4, |sites|), CountBytes(sites), Skipped(mem, at + 8 + |sites|, Gap(|sites|)), SitesBytes(sites)]
  }

  lemma KindBytesAre(kind: nat, sites: seq<seq<Node>>, mem: Bytes, at: nat, gap: Bytes)
    requires gap == Skipped(mem, at + 8 + |sites|, Gap(|sites|))
    ensures Flat(KindParts(kind, sites, mem, at), 5)
         == LE(4, kind) + LE(4, |sites|) + CountBytes(sites) + gap + SitesBytes(sites)
  {
    FlatFive(LE(4, kind), LE(4, |sites|), CountBytes(sites), gap, SitesBytes(sites));
  }

  function KindBytes(kind: nat, sites: seq<seq<Node>>, mem: Bytes, at: nat): (b: Bytes)
    ensures |b| == KindSize(sites)
  {
    KindBytesAre(kind, sites, mem, at, Skipped(mem, at + 8 + |sites|, Gap(|sites|)));
    if |sites| == 0 then [] else Flat(KindParts(kind, sites, mem, at), 5)
  }

  function KindsSize(r: ProfData): nat
    requires RecordOk(r)
  {
    KindSize(Sites(r, 0)) + KindSize(Sites(r, 1))
  }

  function BothKinds(s0: seq<seq<Node>>, s1: seq<seq<Node>>, mem: Bytes, at: nat): (b: Bytes)
    ensures |b| == KindSize(s0) + KindSize(s1)
  {
    KindBytes(0, s0, mem, at) + KindBytes(1, s1, mem, at + KindSize(s0))
  }

  function KindsBytes(r: ProfData, mem: Bytes, at: nat): (b: Bytes)
    requires RecordOk(r)
    ensures |b| == KindsSize(r)
  {
    BothKinds(Sites(r, 0), Sites(r, 1), mem, at)
  }

  function ValueSize(r: ProfData): nat
    requires RecordOk(r)
  {
    if r.sites0 == 0 && r.sites1 == 0 then 0 else 8 + KindsSize(r)
  }

  function KindsOf(r: ProfData): nat {
    if r.sites0 > 0 && r.sites1 > 0 then 2 else 1
  }

  function ValueBytes(r: ProfData, mem: Bytes, at: nat): (b: Bytes)
    requires RecordOk(r)
    ensures |b| == ValueSize(r)
  {
    if r.sites0 == 0 && r.sites1 == 0 then []
    else LE(4, ValueSize(r)) + LE(4, KindsOf(r)) + KindsBytes(r, mem, at + 8)
  }

  function ValuesSize(rs: seq<ProfData>, n: nat): nat
    requires RecordsOk(rs) && n <= |rs|
  {
    if n == 0 then 0 else ValuesSize(rs, n - 1) + ValueSize(rs[n - 1])
  }

  /** Where the value data of the `i`-th record goes if that of the first goes to `at`. */
  function ValuePlace(rs: seq<ProfData>, i: nat, at: nat): nat
    requires RecordsOk(rs) && i <= |rs|
  {
    at + ValuesSize(rs, i)
  }

  /** The value data record by record. */
  function ValueParts(rs: seq<ProfData>, mem: Bytes, at: nat): (parts: seq<Bytes>)
    requires RecordsOk(rs)
    ensures |parts| == |rs| && forall i :: 0 <= i < |rs| ==> |parts[i]| == ValueSize(rs[i])
  {
    seq(|rs|, i requires 0 <= i < |rs| => ValueBytes(rs[i], mem, ValuePlace(rs, i, at)))
  }

  lemma {:induction false} FlatValues(rs: seq<ProfData>, parts: seq<Bytes>, n: nat)
    requires RecordsOk(rs) && n <= |rs| == |parts| && forall i :: 0 <= i < |rs| ==> |parts[i]| == ValueSize(rs[i])
    ensures |Flat(parts, n)| == ValuesSize(rs, n)
  {
    if n > 0 {
      FlatValues(rs, parts, n - 1);
    }
  }

  /** The value data of the first `n` records. */
  function ValuesBytes(rs: seq<ProfData>, n: nat, mem: Bytes, at: nat): (b: Bytes)
    requires RecordsOk(rs) && n <= |rs|
    ensures |b| == ValuesSize(rs, n)
  {
    FlatValues(rs, ValueParts(rs, mem, at), n);
    Flat(ValueParts(rs, mem, at), n)
  }

  // ----- The whole dump -----

  /** The profile as the sections give it. */
  datatype Profile = Profile(records: seq<ProfData>, counters: seq<Bytes>, names: Bytes)

  function ProfileOf(ss: seq<Section>): Profile {
    Profile(Records(ss, |ss|), CounterSections(ss, |ss|), NamesOf(ss, |ss|))
  }

  function CountersAt(p: Profile): nat {
    112 + 64 * |p.records|
  }

  function NamesAt(p: Profile): nat {
    CountersAt(p) + |Flat(p.counters, |p.counters|)|
  }

  function ValuesAt(p: Profile): nat {
    NamesAt(p) + |p.names| + Gap(|p.names|)
  }

  /** The exact size, not cut to 32 bits. */
  function FullSize(p: Profile): nat
    requires RecordsOk(p.records)
  {
    ValuesAt(p) + ValuesSize(p.records, |p.records|)
  }

  function RecordsBytes(p: Profile, mem: Bytes): (b: Bytes)
    ensures |b| == 64 * |p.records|
  {
    FlatEven(RecordParts(p.records, mem), |p.records|, 64);
    Flat(RecordParts(p.records, mem), |p.records|)
  }

  function CountersBytes(p: Profile): Bytes {
    Flat(p.counters, |p.counters|)
  }

  function NamesBytes(p: Profile): (b: Bytes)
    ensures |b| == |p.names| + Gap(|p.names|)
  {
    p.names + LE(Gap(|p.names|), 0)
  }

  /** The dump; the number of counters in its header is a 32-bit sum. */
  function Dump(p: Profile, mem: Bytes): (b: Bytes)
    requires RecordsOk(p.records)
    ensures |b| == FullSize(p)
  {
    HeaderBytes(|p.records|, Wrap32(SumCounters(p.records, |p.records|)), |p.names|)
    + RecordsBytes(p, mem) + CountersBytes(p) + NamesBytes(p) + ValuesBytes(p.records, |p.records|, mem, ValuesAt(p))
  }
}
