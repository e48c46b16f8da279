/** The value profiler as it runs: a table of sites made on the first hit, and per hit a walk
    along the list of its site. */
module ValueProfiler {
  import opened Bits
  import opened ValueProfile

  const MAX_WORD: Word := 0xFFFF_FFFF_FFFF_FFFF

  /** Some node's count is not yet the largest there is. */
  predicate SomeLess(nodes: seq<Node>) {
    exists i :: 0 <= i < |nodes| && nodes[i].count < MAX_WORD
  }

  /** A full list has a node that can be evicted. */
  predicate HasMin(nodes: seq<Node>) {
    |nodes| >= MAX_VALUES ==> SomeLess(nodes)
  }

  /** The hit needs a node to evict and there is none. */
  predicate NoneToEvict(nodes: seq<Node>, h: Hit) {
    h.count > 0 && Misses(nodes, h) && |nodes| >= MAX_VALUES && !SomeLess(nodes)
  }

  /** The walk: the position of the value or, behind the last node, the node of least count, if
      one is below the largest count there is, and the number of nodes as an 8-bit counter. */
  method Walk(nodes: seq<Node>, target: Word) returns (cur: nat, min: Option<nat>, dataCount: nat)
    requires ListOk(nodes)
    ensures cur == Find(nodes, target)
    ensures cur == |nodes| ==> dataCount == |nodes|
    ensures cur == |nodes| ==> min == if SomeLess(nodes) then Some(MinIndex(nodes)) else None
  {
    cur, min, dataCount := 0, None, 0;
    var minCount := MAX_WORD;
    while cur < |nodes|
      invariant 0 <= cur <= |nodes| && dataCount == cur
      invariant forall j :: 0 <= j < cur ==> nodes[j].value != target
      invariant min.None? ==> minCount == MAX_WORD && forall j :: 0 <= j < cur ==> nodes[j].count == MAX_WORD
      invariant min.Some? ==> min.value < cur && minCount == nodes[min.value].count < MAX_WORD
      invariant min.Some? ==> IsMin(nodes[..cur], min.value)
    {
      if nodes[cur].value == target {
        FindAt(nodes, cur);
        return;
      }
      if nodes[cur].count < minCount {
        minCount := nodes[cur].count;
        min := Some(cur);
      }
      cur := cur + 1;
      dataCount := Wrap8(dataCount + 1);
    }
    assert nodes[..cur] == nodes;
    if min.Some? {
      MinOnce(nodes, min.value, MinIndex(nodes));
    }
  }

  method EvictLeast(nodes: seq<Node>, m: nat, h: Hit) returns (list: seq<Node>)
    requires m < |nodes|
    ensures list == Evict(nodes, m, h)
  {
    if nodes[m].count <= h.count {
      list := nodes[m := Node(h.value, h.count)];
    } else {
      list := nodes[m := nodes[m].(count := nodes[m].count - h.count)];
    }
  }

  /** One hit on one list; `None` where the code follows the null pointer of a walk that found
      nothing to evict. */
  method Instrument(nodes: seq<Node>, h: Hit) returns (list: Option<seq<Node>>)
    requires ListOk(nodes)
    ensures list == if NoneToEvict(nodes, h) then None else Some(Record(nodes, h))
  {
    if h.count == 0 {
      return Some(nodes);
    }
    var cur, min, dataCount := Walk(nodes, h.value);
    if cur < |nodes| {
      return Some(nodes[cur := nodes[cur].(count := Wrap64(nodes[cur].count + h.count))]);
    }
    if dataCount >= MAX_VALUES {
      if min.None? {
        return None;
      }
      var evicted := EvictLeast(nodes, min.value, h);
      return Some(evicted);
    }
    return Some(if h.nodeOk then nodes + [Node(h.value, h.count)] else nodes);
  }

  // ----- The table of sites -----

  /** A call for one site; `tableOk` says whether the table could be allocated if needed. */
  datatype Call = Call(site: nat, hit: Hit, tableOk: bool)

  type Table = Option<seq<seq<Node>>>

  predicate TableOk(t: Table, sites: nat) {
    t.Some? ==> |t.value| == sites && forall i :: 0 <= i < sites ==> ListOk(t.value[i]) && HasMin(t.value[i])
  }

  function Empty(sites: nat): seq<seq<Node>> {
    seq(sites, _ => [])
  }

  predicate Counts(t: Table, c: Call) {
    c.hit.count > 0 && (t.Some? || c.tableOk)
  }

  function Step(t: Table, sites: nat, c: Call): Table
    requires t.Some? ==> |t.value| == sites
    requires c.site < sites
  {
    if !Counts(t, c) then t
    else
      var table := if t.Some? then t.value else Empty(sites);
      Some(table[c.site := Record(table[c.site], c.hit)])
  }

  class ProfileData {
    const sites: nat
    var values: Table

    constructor (numValueSites0: nat, numValueSites1: nat)
      ensures sites == numValueSites0 + numValueSites1 && values.None?
    {
      sites := numValueSites0 + numValueSites1;
      values := None;
    }

    method InstrumentTargetValue(c: Call)
      requires TableOk(values, sites) && c.site < sites
      modifies this
      ensures values == Step(old(values), sites, c)
    {
      if c.hit.count == 0 {
        return;
      }
      if values.None? {
        if !c.tableOk {
          return;
        }
        values := Some(Empty(sites));
      }
      var list := Instrument(values.value[c.site], c.hit);
      values := Some(values.value[c.site := list.value]);
    }
  }

  // ----- Every run of a record -----

  predicate CallsOk(calls: seq<Call>, sites: nat) {
    forall i :: 0 <= i < |calls| ==> calls[i].site < sites
  }

  function Run(sites: nat, calls: seq<Call>): (t: Table)
    requires CallsOk(calls, sites)
    ensures t.Some? ==> |t.value| == sites
    decreases |calls|
  {
    if calls == [] then None else Step(Run(sites, calls[..|calls| - 1]), sites, calls[|calls| - 1])
  }

  /** The hits that reached a site: those from the making of the table on. */
  function HitsAt(sites: nat, calls: seq<Call>, site: nat): seq<Hit>
    requires CallsOk(calls, sites)
    decreases |calls|
  {
    if calls == [] then []
    else
      var before, c := calls[..|calls| - 1], calls[|calls| - 1];
      HitsAt(sites, before, site) + if c.site == site && Counts(Run(sites, before), c) then [c.hit] else []
  }

  lemma NodesMore(hits: seq<Hit>, h: Hit)
    ensures Nodes(hits + [h]) == Record(Nodes(hits), h)
  {
    assert (hits + [h])[..|hits|] == hits;
  }

  /** Sites do not disturb each other: each list is what its own hits make it. */
  lemma {:induction false} SiteHistory(sites: nat, calls: seq<Call>, site: nat)
    requires CallsOk(calls, sites) && site < sites
    ensures var t := Run(sites, calls);
            if t.Some? then t.value[site] == Nodes(HitsAt(sites, calls, site)) else HitsAt(sites, calls, site) == []
    decreases |calls|
  {
    if calls != [] {
      var before, c := calls[..|calls| - 1], calls[|calls| - 1];
      SiteHistory(sites, before, site);
      var hits := HitsAt(sites, before, site);
      NodesMore(hits, c.hit);
      assert hits + [] == hits;
      assert Empty(sites)[site] == [] == Nodes([]);
    }
  }

  /** All hits of a site that count anything. */
  function AllHits(calls: seq<Call>, site: nat): seq<Hit>
    decreases |calls|
  {
    if calls == [] then []
    else
      var c := calls[|calls| - 1];
      AllHits(calls[..|calls| - 1], site) + if c.site == site && c.hit.count > 0 then [c.hit] else []
  }

  /** With memory for the table every such hit reaches its site, from the first one on. */
  lemma {:induction false} NoHitLost(sites: nat, calls: seq<Call>, site: nat)
    requires CallsOk(calls, sites) && site < sites && forall i :: 0 <= i < |calls| ==> calls[i].tableOk
    ensures HitsAt(sites, calls, site) == AllHits(calls, site)
    decreases |calls|
  {
    if calls != [] {
      NoHitLost(sites, calls[..|calls| - 1], site);
    }
  }

  lemma {:induction false} TruthOfTwo(hits: seq<Hit>, v: Word, w: Word)
    requires v != w
    ensures Truth(hits, v) + Truth(hits, w) <= Total(hits)
    decreases |hits|
  {
    if hits != [] {
      TruthOfTwo(hits[..|hits| - 1], v, w);
    }
  }

  /** The walk always finds a least node to evict, as long as the hits fit 64 bits. */
  lemma HasMinAlways(hits: seq<Hit>)
    requires Total(hits) < Bits.U64
    ensures ListOk(Nodes(hits)) && HasMin(Nodes(hits))
  {
    var nodes := Nodes(hits);
    FewHitsFit(hits);
    RecordedWithin(hits, 0);
    if |nodes| >= MAX_VALUES {
      var v, w := nodes[0].value, nodes[1].value;
      RecordedWithin(hits, v);
      RecordedWithin(hits, w);
      FindAt(nodes, 0);
      FindAt(nodes, 1);
      TruthOfTwo(hits, v, w);
    }
  }

  /** What the method asks of the table holds in every run whose hits fit 64 bits. */
  lemma RunTableOk(sites: nat, calls: seq<Call>)
    requires CallsOk(calls, sites)
    requires forall site: nat :: site < sites ==> Total(HitsAt(sites, calls, site)) < Bits.U64
    ensures TableOk(Run(sites, calls), sites)
  {
    forall i: nat | i < sites && Run(sites, calls).Some?
      ensures ListOk(Run(sites, calls).value[i]) && HasMin(Run(sites, calls).value[i])
    {
      SiteHistory(sites, calls, i);
      HasMinAlways(HitsAt(sites, calls, i));
    }
  }
}
