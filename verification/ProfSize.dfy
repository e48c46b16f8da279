/** The first pass of the dump: its size, in 32-bit arithmetic. */
module ProfSize {
  import opened Bits
  import opened ByteSpans
  import opened ValueProfile
  import opened ProfFormat

  // ----- 32-bit sums -----

  lemma Wrap32Is(x: nat)
    ensures Wrap32(x) == x % 0x1_0000_0000
  {
    WrapIsMod(x, U32);
  }

  lemma Wrap32Add(a: nat, b: nat)
    ensures Wrap32(Wrap32(a) + b) == Wrap32(a + b)
  {
    Wrap32Is(a);
    Wrap32Is(Wrap32(a) + b);
    Wrap32Is(a + b);
  }

  lemma Wrap32Sub(a: nat, b: nat)
    requires b <= a
    ensures Wrap32(Wrap32(a) - Wrap32(b)) == Wrap32(a - b)
  {
    Wrap32Is(a);
    Wrap32Is(b);
    Wrap32Is(a - b);
    WrapIsMod(Wrap32(a) - Wrap32(b), U32);
  }

  // ----- Sections one by one -----

  lemma {:induction false} FlatMore(parts: seq<Bytes>, x: Bytes, n: nat)
    requires n <= |parts|
    ensures Flat(parts + [x], n) == Flat(parts, n)
  {
    if n > 0 {
      FlatMore(parts, x, n - 1);
    }
  }

  lemma {:induction false} SumMore(rs: seq<ProfData>, r: ProfData, n: nat)
    requires n <= |rs|
    ensures SumCounters(rs + [r], n) == SumCounters(rs, n)
  {
    if n > 0 {
      SumMore(rs, r, n - 1);
    }
  }

  function CountersUpTo(ss: seq<Section>, n: nat): nat
    requires n <= |ss|
  {
    SumCounters(Records(ss, n), |Records(ss, n)|)
  }

  function CounterBytesUpTo(ss: seq<Section>, n: nat): nat
    requires n <= |ss|
  {
    |Flat(CounterSections(ss, n), |CounterSections(ss, n)|)|
  }

  lemma OneMore(ss: seq<Section>, i: nat)
    requires i < |ss|
    ensures |Records(ss, i + 1)| == |Records(ss, i)| + if ss[i].Data? then 1 else 0
    ensures CountersUpTo(ss, i + 1) == CountersUpTo(ss, i) + if ss[i].Data? then ss[i].rec.numCounters else 0
    ensures CounterBytesUpTo(ss, i + 1) == CounterBytesUpTo(ss, i) + if ss[i].Counters? then |ss[i].bytes| else 0
  {
    var rs, cs := Records(ss, i), CounterSections(ss, i);
    match ss[i]
    case Data(r) =>
      SumMore(rs, r, |rs|);
      assert CounterSections(ss, i + 1) == cs;
    case Counters(b) =>
      FlatMore(cs, b, |cs|);
      assert Records(ss, i + 1) == rs;
    case Names(_) =>
      assert Records(ss, i + 1) == rs && CounterSections(ss, i + 1) == cs;
    case OtherSection =>
      assert Records(ss, i + 1) == rs && CounterSections(ss, i + 1) == cs;
  }

  lemma {:induction false} RecordsPrefix(ss: seq<Section>, i: nat, n: nat)
    requires i <= n <= |ss|
    ensures Records(ss, i) <= Records(ss, n)
  {
    if i < n {
      RecordsPrefix(ss, i, n - 1);
    }
  }

  /** Where the section at `i` is a record, it is the next one of all. */
  lemma NextRecord(ss: seq<Section>, i: nat)
    requires i < |ss|
    ensures |Records(ss, i)| <= |Records(ss, i + 1)| <= |Records(ss, |ss|)|
    ensures ss[i].Data? ==> |Records(ss, i + 1)| == |Records(ss, i)| + 1
    ensures ss[i].Data? ==> Records(ss, |ss|)[|Records(ss, i)|] == ss[i].rec
    ensures !ss[i].Data? ==> |Records(ss, i + 1)| == |Records(ss, i)|
  {
    RecordsPrefix(ss, i + 1, |ss|);
    assert ss[i].Data? ==> Records(ss, i + 1)[|Records(ss, i)|] == ss[i].rec;
  }

  lemma {:induction false} CountersPrefix(ss: seq<Section>, i: nat, n: nat)
    requires i <= n <= |ss|
    ensures CounterSections(ss, i) <= CounterSections(ss, n)
  {
    if i < n {
      CountersPrefix(ss, i, n - 1);
    }
  }

  lemma NextCounters(ss: seq<Section>, i: nat)
    requires i < |ss|
    ensures |CounterSections(ss, i)| <= |CounterSections(ss, i + 1)| <= |CounterSections(ss, |ss|)|
    ensures ss[i].Counters? ==> |CounterSections(ss, i + 1)| == |CounterSections(ss, i)| + 1
    ensures ss[i].Counters? ==> CounterSections(ss, |ss|)[|CounterSections(ss, i)|] == ss[i].bytes
    ensures !ss[i].Counters? ==> |CounterSections(ss, i + 1)| == |CounterSections(ss, i)|
  {
    CountersPrefix(ss, i + 1, |ss|);
    assert ss[i].Counters? ==> CounterSections(ss, i + 1)[|CounterSections(ss, i)|] == ss[i].bytes;
  }

  /** The names are those of the last names section, if there is one. */
  lemma {:induction false} LastNames(ss: seq<Section>, n: nat, i: nat)
    requires i <= n <= |ss| && (i > 0 ==> ss[i - 1].Names?)
    requires forall j :: i <= j < n ==> !ss[j].Names?
    ensures NamesOf(ss, n) == if i > 0 then ss[i - 1].bytes else []
  {
    if n > i {
      LastNames(ss, n - 1, i);
    }
  }

  /** The counter bytes are as many as the counters need, in 32-bit arithmetic. */
  predicate Matched(ss: seq<Section>) {
    Wrap32(CounterBytesUpTo(ss, |ss|)) == 8 * Wrap32(CountersUpTo(ss, |ss|))
  }

  /** Section sizes and the number of sections are 32-bit. */
  predicate SectionsOk(ss: seq<Section>) {
    && |ss| < 0x1_0000_0000
    && forall i :: 0 <= i < |ss| ==>
         && (ss[i].Data? ==> RecordOk(ss[i].rec))
         && (ss[i].Names? ==> |ss[i].bytes| < 0x1_0000_0000)
  }

  lemma {:induction false} RecordsAreOk(ss: seq<Section>, n: nat)
    requires SectionsOk(ss) && n <= |ss|
    ensures RecordsOk(Records(ss, n)) && |Records(ss, n)| <= n && |NamesOf(ss, n)| < 0x1_0000_0000
  {
    if n > 0 {
      RecordsAreOk(ss, n - 1);
    }
  }

  /** What `get_pgo_prof_data_size` returns. */
  function ComputedSize(ss: seq<Section>): nat
    requires SectionsOk(ss)
  {
    RecordsAreOk(ss, |ss|);
    if Matched(ss) then Wrap32(FullSize(ProfileOf(ss))) else 0
  }

  /** The counter sections match the records and the dump stays below 4 GiB. */
  predicate Fits(ss: seq<Section>)
    requires SectionsOk(ss)
  {
    RecordsAreOk(ss, |ss|);
    Matched(ss) && FullSize(ProfileOf(ss)) < 0x1_0000_0000
  }

  /** The computed size is the exact one exactly for the modules that fit. */
  lemma SizeExact(ss: seq<Section>)
    requires SectionsOk(ss)
    ensures RecordsOk(ProfileOf(ss).records)
    ensures ComputedSize(ss) == FullSize(ProfileOf(ss)) <==> Fits(ss)
  {
    RecordsAreOk(ss, |ss|);
    OneWrap(FullSize(ProfileOf(ss)), U32);
  }

  /** The writer compares the buffer with the computed size only: every buffer that passes
      holds the whole dump exactly for the modules that fit. */
  lemma LengthTestExact(ss: seq<Section>)
    requires SectionsOk(ss)
    ensures RecordsOk(ProfileOf(ss).records)
    ensures (forall len: nat :: Passes(ss, len) ==> FullSize(ProfileOf(ss)) <= len) <==> Fits(ss)
  {
    SizeExact(ss);
    if !Fits(ss) {
      OneWrap(FullSize(ProfileOf(ss)), U32);
      assert Passes(ss, ComputedSize(ss)) && ComputedSize(ss) < FullSize(ProfileOf(ss));
    }
  }

  /** The length test of the writer. */
  predicate Passes(ss: seq<Section>, len: nat)
    requires SectionsOk(ss)
  {
    ComputedSize(ss) <= len
  }

  /** A module whose counters are missing: the computed size is 0. */
  lemma MissingCounters(r: ProfData)
    requires RecordOk(r) && r.numCounters > 0
    ensures SectionsOk([Data(r)]) && ComputedSize([Data(r)]) == 0
    ensures RecordsOk(ProfileOf([Data(r)]).records) && FullSize(ProfileOf([Data(r)])) >= 176
  {
    var ss := [Data(r)];
    assert Records(ss, 0) == [] && CounterSections(ss, 0) == [];
    assert Records(ss, 1) == [r] && CounterSections(ss, 1) == [] + [];
    assert SumCounters([r], 1) == r.numCounters;
    OneWrap(r.numCounters, U32);
    OneWrap(0, U32);
  }

  // ----- The passes -----

  /** Everything the size pass hands to the writer. */
  datatype Counts = Counts(numData: nat, numCounters: nat, countersSize: nat, names: Bytes, valuesSize: nat)

  method CountSections(ss: seq<Section>) returns (c: Counts)
    requires SectionsOk(ss)
    ensures c.numData == |Records(ss, |ss|)| && c.names == NamesOf(ss, |ss|)
    ensures c.numCounters == Wrap32(CountersUpTo(ss, |ss|)) && c.countersSize == Wrap32(CounterBytesUpTo(ss, |ss|))
  {
    var numData, numCounters, countersSize, names: Bytes := 0, 0, 0, [];
    var i := 0;
    while i < |ss|
      invariant 0 <= i <= |ss|
      invariant numData == |Records(ss, i)| <= i && names == NamesOf(ss, i)
      invariant numCounters == Wrap32(CountersUpTo(ss, i)) && countersSize == Wrap32(CounterBytesUpTo(ss, i))
    {
      OneMore(ss, i);
      match ss[i] {
        case Data(r) =>
          Wrap32Add(CountersUpTo(ss, i), r.numCounters);
          numData := numData + 1;
          numCounters := Wrap32(numCounters + r.numCounters);
        case Counters(b) =>
          Wrap32Add(CounterBytesUpTo(ss, i), |b|);
          countersSize := Wrap32(countersSize + |b|);
        case Names(b) =>
          names := b;
        case OtherSection =>
      }
      i := i + 1;
    }
    c := Counts(numData, numCounters, countersSize, names, 0);
  }

  /** `align_uint(n, 8)`. */
  lemma Align8(n: nat)
    ensures (n + 7) / 8 * 8 == n + Gap(n)
  {
  }

  /** A 32-bit sum that has lost at most multiples of 2^32 of the exact one. */
  predicate Sums(t: nat, exact: nat) {
    t == Wrap32(exact)
  }

  method Add(t: nat, n: nat, ghost exact: nat) returns (u: nat)
    requires Sums(t, exact)
    ensures Sums(u, exact + n)
  {
    Wrap32Add(exact, n);
    u := Wrap32(t + n);
  }

  method AddKindSize(r: ProfData, kind: nat, total: nat, ghost was: nat) returns (t: nat, ghost exact: nat)
    requires RecordOk(r) && kind < 2 && Sums(total, was)
    ensures Sums(t, exact) && exact == was + KindSize(Sites(r, kind))
  {
    var n := if kind == 0 then r.sites0 else r.sites1;
    ghost var sites := Sites(r, kind);
    t, exact := total, was;
    if n > 0 {
      Align8(n);
      t := Add(t, 8, exact);
      t := Add(t, (n + 7) / 8 * 8, exact + 8);
      exact := exact + 8 + (n + 7) / 8 * 8;
      if r.values.Some? {
        var first := if kind == 0 then 0 else r.sites0;
        var k := 0;
        while k < n
          invariant 0 <= k <= n && Sums(t, exact)
          invariant exact == was + 8 + n + Gap(n) + 16 * NodeCount(sites, k)
        {
          var nodes := r.values.value[first + k];
          assert nodes == sites[k];
          if |nodes| > 0 {
            t := Add(t, |nodes| * 8 * 2, exact);
            exact := exact + |nodes| * 8 * 2;
          }
          k := k + 1;
        }
      } else {
        NoNodes(sites, n);
      }
    }
  }

  lemma {:induction false} NoNodes(sites: seq<seq<Node>>, n: nat)
    requires n <= |sites| && forall i :: 0 <= i < |sites| ==> |sites[i]| == 0
    ensures NodeCount(sites, n) == 0
  {
    if n > 0 {
      NoNodes(sites, n - 1);
    }
  }

  method AddValueSize(r: ProfData, total: nat, ghost was: nat) returns (t: nat, ghost exact: nat)
    requires RecordOk(r) && Sums(total, was)
    ensures Sums(t, exact) && exact == was + ValueSize(r)
  {
    t, exact := total, was;
    if r.sites0 > 0 || r.sites1 > 0 {
      t := Add(t, 8, exact);
      t, exact := AddKindSize(r, 0, t, exact + 8);
      t, exact := AddKindSize(r, 1, t, exact);
    }
  }

  /** The value data of the records among the first `i` sections has been added. */
  ghost predicate ValuesAdded(ss: seq<Section>, i: nat, rs: seq<ProfData>, was: nat, t: nat, exact: nat) {
    && i <= |ss| && RecordsOk(rs) && |Records(ss, i)| <= |rs|
    && Sums(t, exact) && exact == was + ValuesSize(rs, |Records(ss, i)|)
  }

  method AddSectionSize(ss: seq<Section>, i: nat, t: nat, ghost rs: seq<ProfData>, ghost was: nat, ghost sum: nat)
    returns (u: nat, ghost exact: nat)
    requires i < |ss| && rs == Records(ss, |ss|) && ValuesAdded(ss, i, rs, was, t, sum)
    ensures ValuesAdded(ss, i + 1, rs, was, u, exact)
  {
    NextRecord(ss, i);
    u, exact := t, sum;
    if ss[i].Data? {
      u, exact := AddValueSize(ss[i].rec, t, sum);
    }
  }

  /** The value data of all records. */
  method AddValueSizes(ss: seq<Section>, total: nat, ghost rs: seq<ProfData>, ghost was: nat)
    returns (t: nat, ghost exact: nat)
    requires rs == Records(ss, |ss|) && RecordsOk(rs) && Sums(total, was)
    ensures Sums(t, exact) && exact == was + ValuesSize(rs, |rs|)
  {
    t, exact := total, was;
    var i := 0;
    while i != |ss|
      invariant 0 <= i <= |ss| && ValuesAdded(ss, i, rs, was, t, exact)
    {
      t, exact := AddSectionSize(ss, i, t, rs, was, exact);
      i := i + 1;
    }
  }

  /** Header, records, counters, names and the padding behind them. */
  method AddFixedSize(c: Counts, ghost counterBytes: nat) returns (total: nat, ghost exact: nat)
    requires Sums(c.countersSize, counterBytes)
    ensures Sums(total, exact) && exact == 112 + 64 * c.numData + counterBytes + |c.names| + Gap(|c.names|)
  {
    exact := counterBytes;
    total := Add(c.countersSize, 112 + 64 * c.numData + |c.names|, exact);
    exact := exact + (112 + 64 * c.numData + |c.names|);
    var padding := 8 - |c.names| % 8;
    if padding != 8 {
      total := Add(total, padding, exact);
      exact := exact + padding;
    }
  }

  /** `get_pgo_prof_data_size`; `c` is what it stores for its caller, and only then. */
  method GetProfDataSize(ss: seq<Section>) returns (total: nat, c: Counts)
    requires SectionsOk(ss)
    ensures total == ComputedSize(ss)
    ensures Matched(ss) ==> c.numData == |Records(ss, |ss|)| && c.names == NamesOf(ss, |ss|)
    ensures Matched(ss) ==> c.numCounters == Wrap32(CountersUpTo(ss, |ss|))
    ensures Matched(ss) && RecordsOk(Records(ss, |ss|)) ==>
              c.valuesSize == Wrap32(ValuesSize(Records(ss, |ss|), |Records(ss, |ss|)|))
    ensures !Matched(ss) ==> c == Counts(0, 0, 0, [], 0)
  {
    var counts := CountSections(ss);
    if counts.countersSize != 8 * counts.numCounters {
      return 0, Counts(0, 0, 0, [], 0);
    }
    c := counts;
    RecordsAreOk(ss, |ss|);
    ghost var p := ProfileOf(ss);
    ghost var exact;
    total, exact := AddFixedSize(c, CounterBytesUpTo(ss, |ss|));
    assert exact == ValuesAt(p);
    var withoutValues := total;
    total, exact := AddValueSizes(ss, total, p.records, exact);
    assert exact == FullSize(p);
    Wrap32Sub(exact, ValuesAt(p));
    c := c.(valuesSize := Wrap32(total - withoutValues));
  }
}
