/** Value profiling: per value site a bounded list of counted values, with eviction. */
module ValueProfile {
  import opened Bits

  const MAX_VALUES: nat := 255

  type Word = x: int | 0 <= x < 0x1_0000_0000_0000_0000

  datatype Node = Node(value: Word, count: Word)

  /** One call for a site: `nodeOk` says whether a node could be allocated. */
  datatype Hit = Hit(value: Word, count: Word, nodeOk: bool)

  // ----- What one call does to the list of its site -----

  /** The position of `v`, or the length of the list. */
  function Find(nodes: seq<Node>, v: Word): (i: nat)
    ensures i <= |nodes| && forall j :: 0 <= j < i ==> nodes[j].value != v
    ensures i < |nodes| ==> nodes[i].value == v
  {
    if nodes == [] then 0 else if nodes[0].value == v then 0 else 1 + Find(nodes[1..], v)
  }

  /** `m` is the first node of least count. */
  predicate IsMin(nodes: seq<Node>, m: nat) {
    && m < |nodes|
    && (forall j :: 0 <= j < |nodes| ==> nodes[m].count <= nodes[j].count)
    && (forall j :: 0 <= j < m ==> nodes[m].count < nodes[j].count)
  }

  function MinIndex(nodes: seq<Node>): (m: nat)
    requires nodes != []
    ensures IsMin(nodes, m)
  {
    if |nodes| == 1 then 0
    else
      var m := MinIndex(nodes[..|nodes| - 1]);
      if nodes[|nodes| - 1].count < nodes[m].count then |nodes| - 1 else m
  }

  predicate Misses(nodes: seq<Node>, h: Hit) {
    Find(nodes, h.value) == |nodes|
  }

  function Bump(nodes: seq<Node>, i: nat, h: Hit): seq<Node>
    requires i < |nodes|
  {
    nodes[i := Node(nodes[i].value, Wrap64(nodes[i].count + h.count))]
  }

  /** The node at `m` makes way for the new value or pays for it. */
  function Evict(nodes: seq<Node>, m: nat, h: Hit): seq<Node>
    requires m < |nodes|
  {
    if nodes[m].count <= h.count then nodes[m := Node(h.value, h.count)]
    else nodes[m := Node(nodes[m].value, nodes[m].count - h.count)]
  }

  function Record(nodes: seq<Node>, h: Hit): seq<Node> {
    var i := Find(nodes, h.value);
    if h.count == 0 then nodes
    else if i < |nodes| then Bump(nodes, i, h)
    else if |nodes| >= MAX_VALUES then Evict(nodes, MinIndex(nodes), h)
    else if h.nodeOk then nodes + [Node(h.value, h.count)]
    else nodes
  }

  // ----- Bookkeeping over a history -----

  function Nodes(hits: seq<Hit>): seq<Node> {
    if hits == [] then [] else Record(Nodes(hits[..|hits| - 1]), hits[|hits| - 1])
  }

  function Total(hits: seq<Hit>): nat {
    if hits == [] then 0 else Total(hits[..|hits| - 1]) + hits[|hits| - 1].count
  }

  /** How often `v` was really hit. */
  function Truth(hits: seq<Hit>, v: Word): nat {
    if hits == [] then 0
    else Truth(hits[..|hits| - 1], v) + if hits[|hits| - 1].value == v then hits[|hits| - 1].count else 0
  }

  /** What a hit may cost the values: nothing, unless it finds no room. */
  function Cost(nodes: seq<Node>, h: Hit): nat {
    if Misses(nodes, h) && (|nodes| >= MAX_VALUES || !h.nodeOk) then h.count else 0
  }

  /** The weight of the hits that found no room: a full list or no memory. */
  function Lost(hits: seq<Hit>): nat {
    if hits == [] then 0
    else Lost(hits[..|hits| - 1]) + Cost(Nodes(hits[..|hits| - 1]), hits[|hits| - 1])
  }

  function Recorded(nodes: seq<Node>, v: Word): nat {
    var i := Find(nodes, v);
    if i < |nodes| then nodes[i].count else 0
  }

  predicate Distinct(nodes: seq<Node>) {
    forall i, j :: 0 <= i < j < |nodes| ==> nodes[i].value != nodes[j].value
  }

  predicate ListOk(nodes: seq<Node>) {
    Distinct(nodes) && |nodes| <= MAX_VALUES && forall i :: 0 <= i < |nodes| ==> nodes[i].count > 0
  }

  lemma FindAt(nodes: seq<Node>, i: nat)
    requires Distinct(nodes) && i < |nodes|
    ensures Find(nodes, nodes[i].value) == i
  {
    var f := Find(nodes, nodes[i].value);
    assert f <= i;
  }

  /** Setting one node to a value not elsewhere in the list. */
  lemma SetNode(nodes: seq<Node>, i: nat, n: Node, v: Word)
    requires Distinct(nodes) && i < |nodes|
    requires forall j :: 0 <= j < |nodes| && j != i ==> nodes[j].value != n.value
    ensures Distinct(nodes[i := n])
    ensures Recorded(nodes[i := n], v)
         == if v == n.value then n.count else if v == nodes[i].value then 0 else Recorded(nodes, v)
  {
    var list := nodes[i := n];
    FindAt(list, i);
    FindAt(nodes, i);
    if v != n.value && v != nodes[i].value {
      var f := Find(nodes, v);
      if f < |nodes| {
        assert list[f] == nodes[f];
        FindAt(list, f);
      } else {
        assert Find(list, v) == |list| by {
          assert forall j :: 0 <= j < |list| ==> list[j].value != v;
        }
      }
    } else if v != n.value {
      assert Find(list, v) == |list| by {
        assert forall j :: 0 <= j < |list| && j != i ==> list[j] == nodes[j];
      }
    }
  }

  lemma AddNode(nodes: seq<Node>, n: Node, v: Word)
    requires Distinct(nodes) && Find(nodes, n.value) == |nodes|
    ensures Distinct(nodes + [n])
    ensures Recorded(nodes + [n], v) == if v == n.value then n.count else Recorded(nodes, v)
  {
    var list := nodes + [n];
    FindAt(list, |nodes|);
    if v != n.value {
      var f := Find(nodes, v);
      if f < |nodes| {
        assert list[f] == nodes[f];
        FindAt(list, f);
      } else {
        assert Find(list, v) == |list| by {
          assert forall j :: 0 <= j < |nodes| ==> list[j] == nodes[j];
        }
      }
    }
  }

  /** The record of `v` moves by the hit on `v` itself, or less by at most `cost`. */
  predicate Moved(nodes: seq<Node>, h: Hit, v: Word, list: seq<Node>, cost: nat) {
    var gain := if h.value == v then h.count else 0;
    ListOk(list) && Recorded(nodes, v) + gain - cost <= Recorded(list, v) <= Recorded(nodes, v) + gain
  }

  lemma BumpMoves(nodes: seq<Node>, h: Hit, i: nat, v: Word)
    requires ListOk(nodes) && i < |nodes| && nodes[i].value == h.value && nodes[i].count + h.count < Bits.U64
    ensures Moved(nodes, h, v, Bump(nodes, i, h), 0)
  {
    OneWrap(nodes[i].count + h.count, Bits.U64);
    FindAt(nodes, i);
    SetNode(nodes, i, Node(h.value, nodes[i].count + h.count), v);
  }

  lemma EvictMoves(nodes: seq<Node>, h: Hit, m: nat, v: Word)
    requires ListOk(nodes) && h.count > 0 && Misses(nodes, h) && m < |nodes|
    ensures Moved(nodes, h, v, Evict(nodes, m, h), h.count)
  {
    FindAt(nodes, m);
    if nodes[m].count <= h.count {
      SetNode(nodes, m, Node(h.value, h.count), v);
    } else {
      SetNode(nodes, m, Node(nodes[m].value, nodes[m].count - h.count), v);
    }
  }

  lemma AddMoves(nodes: seq<Node>, h: Hit, v: Word)
    requires ListOk(nodes) && h.count > 0 && Misses(nodes, h) && |nodes| < MAX_VALUES
    ensures Moved(nodes, h, v, nodes + [Node(h.value, h.count)], 0)
  {
    AddNode(nodes, Node(h.value, h.count), v);
  }

  /** The hit does not overflow the count of its value. */
  predicate CountFits(nodes: seq<Node>, h: Hit) {
    Recorded(nodes, h.value) + h.count < Bits.U64
  }

  lemma RecordMoves(nodes: seq<Node>, h: Hit, v: Word)
    requires ListOk(nodes) && CountFits(nodes, h)
    ensures Moved(nodes, h, v, Record(nodes, h), Cost(nodes, h))
  {
    var i := Find(nodes, h.value);
    if h.count == 0 {
    } else if i < |nodes| {
      BumpMoves(nodes, h, i, v);
    } else if |nodes| >= MAX_VALUES {
      EvictMoves(nodes, h, MinIndex(nodes), v);
    } else if h.nodeOk {
      AddMoves(nodes, h, v);
    }
  }

  /** A hit keeps the list in order and every record within its cost exactly if it does not
      overflow the count of its value. */
  lemma RecordExact(nodes: seq<Node>, h: Hit)
    requires ListOk(nodes)
    ensures (forall v: Word :: Moved(nodes, h, v, Record(nodes, h), Cost(nodes, h))) <==> CountFits(nodes, h)
  {
    if CountFits(nodes, h) {
      forall v: Word
        ensures Moved(nodes, h, v, Record(nodes, h), Cost(nodes, h))
      {
        RecordMoves(nodes, h, v);
      }
    } else {
      OverflowMoves(nodes, h);
    }
  }

  lemma OverflowMoves(nodes: seq<Node>, h: Hit)
    requires ListOk(nodes) && !CountFits(nodes, h)
    ensures !Moved(nodes, h, h.value, Record(nodes, h), Cost(nodes, h))
  {
    var i := Find(nodes, h.value);
    assert i < |nodes|;
    OneWrap(nodes[i].count + h.count, Bits.U64);
    SetNode(nodes, i, Node(h.value, nodes[i].count + h.count - Bits.U64), h.value);
  }

  // ----- What each kind of hit records -----

  lemma MinOnce(nodes: seq<Node>, a: nat, b: nat)
    requires IsMin(nodes, a) && IsMin(nodes, b)
    ensures a == b
  {
    assert nodes[a].count <= nodes[b].count && nodes[b].count <= nodes[a].count;
  }

  /** A value missing from a full list takes the place of the first least node if it counts
      for at least as much, and otherwise lowers the count of that node by its own and stays
      out. Every other value keeps its record. */
  lemma EvictExact(nodes: seq<Node>, h: Hit, m: nat, v: Word)
    requires ListOk(nodes) && |nodes| == MAX_VALUES && Misses(nodes, h) && h.count > 0 && IsMin(nodes, m)
    ensures var now := Recorded(Record(nodes, h), v);
            if v != h.value && v != nodes[m].value then now == Recorded(nodes, v)
            else if nodes[m].count <= h.count then now == if v == h.value then h.count else 0
            else now == if v == h.value then 0 else nodes[m].count - h.count
  {
    MinOnce(nodes, m, MinIndex(nodes));
    FindAt(nodes, m);
    if nodes[m].count <= h.count {
      SetNode(nodes, m, Node(h.value, h.count), v);
    } else {
      SetNode(nodes, m, Node(nodes[m].value, nodes[m].count - h.count), v);
    }
  }

  /** A value that is in the list, or finds room and memory for a node, gains exactly its hit,
      modulo 2^64; without memory nothing changes; no other value changes. */
  lemma RoomExact(nodes: seq<Node>, h: Hit, v: Word)
    requires ListOk(nodes) && h.count > 0 && (!Misses(nodes, h) || |nodes| < MAX_VALUES)
    ensures var gain := if h.value == v && (!Misses(nodes, h) || h.nodeOk) then h.count else 0;
            Recorded(Record(nodes, h), v) == Wrap64(Recorded(nodes, v) + gain)
    ensures |Record(nodes, h)| == |nodes| + if Misses(nodes, h) && h.nodeOk then 1 else 0
  {
    var i := Find(nodes, h.value);
    OneWrap(Recorded(nodes, v), Bits.U64);
    if i < |nodes| {
      SetNode(nodes, i, Node(h.value, Wrap64(nodes[i].count + h.count)), v);
    } else if h.nodeOk {
      AddNode(nodes, Node(h.value, h.count), v);
      OneWrap(h.count, Bits.U64);
    }
  }

  /** No hit overflows the count of its value. */
  predicate CountsFit(hits: seq<Hit>) {
    hits != [] ==> CountsFit(hits[..|hits| - 1]) && CountFits(Nodes(hits[..|hits| - 1]), hits[|hits| - 1])
  }

  /** That is so if all hits together fit 64 bits. */
  lemma {:induction false} FewHitsFit(hits: seq<Hit>)
    requires Total(hits) < Bits.U64
    ensures CountsFit(hits)
    decreases |hits|
  {
    if hits != [] {
      var before, h := hits[..|hits| - 1], hits[|hits| - 1];
      FewHitsFit(before);
      RecordedWithin(before, h.value);
      TruthBelowTotal(before, h.value);
    }
  }

  lemma {:induction false} TruthBelowTotal(hits: seq<Hit>, v: Word)
    ensures Truth(hits, v) <= Total(hits)
  {
    if hits != [] {
      TruthBelowTotal(hits[..|hits| - 1], v);
    }
  }

  /** Over every history of a site: the list has distinct values, at most 255 of them, each
      with a positive count, and each value is recorded as often as it was hit, less at most
      the weight of the hits that found no room. */
  lemma {:induction false} RecordedWithin(hits: seq<Hit>, v: Word)
    requires CountsFit(hits)
    ensures ListOk(Nodes(hits))
    ensures Recorded(Nodes(hits), v) <= Truth(hits, v) <= Recorded(Nodes(hits), v) + Lost(hits)
    decreases |hits|
  {
    if hits != [] {
      var before, h := hits[..|hits| - 1], hits[|hits| - 1];
      RecordedWithin(before, v);
      RecordMoves(Nodes(before), h, v);
    }
  }

  /** `n` hits of the same value as the code makes them, each counting one. */
  function Ones(v: Word, n: nat): (hits: seq<Hit>)
    ensures |hits| == n
  {
    seq(n, _ => Hit(v, 1, true))
  }

  lemma OneMoreHit(v: Word, n: nat)
    requires n > 0
    ensures Nodes(Ones(v, n)) == Record(Nodes(Ones(v, n - 1)), Hit(v, 1, true))
  {
    assert Ones(v, n)[..n - 1] == Ones(v, n - 1);
  }

  lemma {:induction false} OnesCounted(v: Word, n: nat)
    requires 0 < n < Bits.U64
    ensures Nodes(Ones(v, n)) == [Node(v, n)]
  {
    OneMoreHit(v, n);
    if n > 1 {
      OnesCounted(v, n - 1);
      OneWrap(n, Bits.U64);
    }
  }

  /** After 2^64 hits of one value its node counts nothing. */
  lemma OverflowInput(v: Word)
    ensures Nodes(Ones(v, Bits.U64)) == [Node(v, 0)]
  {
    OneMoreHit(v, Bits.U64);
    OnesCounted(v, Bits.U64 - 1);
    OneWrap(Bits.U64, Bits.U64);
  }

  // ----- How many values a list holds -----

  function Values(hits: seq<Hit>): set<Word> {
    if hits == [] then {}
    else Values(hits[..|hits| - 1]) + if hits[|hits| - 1].count > 0 then {hits[|hits| - 1].value} else {}
  }

  function ValuesOf(nodes: seq<Node>): set<Word> {
    set i | 0 <= i < |nodes| :: nodes[i].value
  }

  predicate Roomy(hits: seq<Hit>) {
    forall i :: 0 <= i < |hits| ==> hits[i].nodeOk
  }

  lemma {:induction false} DistinctCount(nodes: seq<Node>)
    requires Distinct(nodes)
    ensures |ValuesOf(nodes)| == |nodes|
    decreases |nodes|
  {
    if nodes != [] {
      var n := |nodes| - 1;
      DistinctCount(nodes[..n]);
      assert ValuesOf(nodes) == ValuesOf(nodes[..n]) + {nodes[n].value};
    }
  }

  /** While the list has room it holds exactly the values hit; afterwards it stays full. */
  predicate Holds(nodes: seq<Node>, values: set<Word>) {
    if |nodes| < MAX_VALUES then ValuesOf(nodes) == values else |nodes| == MAX_VALUES <= |values|
  }

  lemma HoldsBump(nodes: seq<Node>, h: Hit, i: nat, list: seq<Node>)
    requires i == Find(nodes, h.value) < |nodes| && list == Bump(nodes, i, h)
    ensures h.value in ValuesOf(nodes) && ValuesOf(list) == ValuesOf(nodes)
  {
    assert forall j :: 0 <= j < |nodes| ==> list[j].value == nodes[j].value;
    assert nodes[i].value == h.value;
  }

  lemma HoldsAppend(nodes: seq<Node>, n: Node, list: seq<Node>)
    requires list == nodes + [n]
    ensures ValuesOf(list) == ValuesOf(nodes) + {n.value}
  {
    assert forall j :: 0 <= j < |nodes| ==> list[j] == nodes[j];
    assert list[|nodes|].value == n.value;
  }

  lemma HoldsStep(nodes: seq<Node>, h: Hit, values: set<Word>)
    requires ListOk(nodes) && h.nodeOk && Holds(nodes, values)
    ensures Holds(Record(nodes, h), values + if h.count > 0 then {h.value} else {})
  {
    var list := Record(nodes, h);
    var i := Find(nodes, h.value);
    if h.count == 0 {
      assert values + {} == values;
    } else if |nodes| >= MAX_VALUES {
      MoreIsMore(values, values + {h.value});
    } else if i < |nodes| {
      HoldsBump(nodes, h, i, list);
    } else {
      HoldsAppend(nodes, Node(h.value, h.count), list);
      AddNode(nodes, Node(h.value, h.count), h.value);
      DistinctCount(list);
    }
  }

  lemma MoreIsMore(a: set<Word>, b: set<Word>)
    requires a <= b
    ensures |a| <= |b|
  {
    assert b == a + (b - a);
  }

  lemma {:induction false} HoldsAlways(hits: seq<Hit>)
    requires CountsFit(hits) && Roomy(hits)
    ensures ListOk(Nodes(hits)) && Holds(Nodes(hits), Values(hits))
    decreases |hits|
  {
    if hits != [] {
      var before, h := hits[..|hits| - 1], hits[|hits| - 1];
      HoldsAlways(before);
      RecordedWithin(hits, h.value);
      HoldsStep(Nodes(before), h, Values(before));
    }
  }

  /** The dump asserts that every site has fewer than 255 nodes. With every allocation
      succeeding this holds exactly when fewer than 255 distinct values were hit. */
  lemma DumpAssertionExact(hits: seq<Hit>)
    requires CountsFit(hits) && Roomy(hits)
    ensures |Nodes(hits)| < 255 <==> |Values(hits)| < 255
    ensures |Nodes(hits)| == Min(255, |Values(hits)|)
  {
    HoldsAlways(hits);
    DistinctCount(Nodes(hits));
  }

  /** One hit on each of the first `n` values. */
  function OneEach(n: nat): (hits: seq<Hit>)
    requires n <= 0x1_0000
    ensures |hits| == n
  {
    if n == 0 then [] else OneEach(n - 1) + [Hit(n - 1, 1, true)]
  }

  lemma {:induction false} OneEachIs(n: nat)
    requires n <= 0x1_0000
    ensures Total(OneEach(n)) == n && Roomy(OneEach(n)) && |Values(OneEach(n))| == n
    ensures forall v :: v in Values(OneEach(n)) ==> v < n
  {
    if n > 0 {
      OneEachIs(n - 1);
      assert OneEach(n)[..n - 1] == OneEach(n - 1);
    }
  }

  /** 255 values suffice to make the dump's assertion fail. */
  lemma FullSite()
    ensures Total(OneEach(255)) == 255 && |Nodes(OneEach(255))| == 255
  {
    OneEachIs(255);
    FewHitsFit(OneEach(255));
    DumpAssertionExact(OneEach(255));
  }
}
