/** A run that fills the 8-bit attach count of a chain, and what the next attachment breaks. */
module AttachOverflow {
  import opened Bits
  import opened LinearMemory
  import opened SharedHeap
  import opened HeapRuntime

  lemma {:induction false} RunAppend(s: State, run: seq<Op>, op: Op)
    requires Inv(s) && ValidRun(s, run) && CallerOk(After(s, run), op)
    ensures ValidRun(s, run + [op]) && After(s, run + [op]) == Do(After(s, run), op)
    decreases |run|
  {
    if run == [] {
      StepKeepsInv(s, op);
      assert ([] + [op])[1..] == [];
    } else {
      StepKeepsInv(s, run[0]);
      RunAppend(Do(s, run[0]), run[1..], op);
      assert (run + [op])[1..] == run[1..] + [op];
    }
  }

  /** Two heaps of 64 KB in pre-allocated buffers, the first in front of the second. */
  function FirstHeap(attached: nat): Heap {
    Heap(0x1_0000, 0x1000_0000, false, 0xFFFE_0000, 0xFFFF_FFFF_FFFE_0000, Some(1), attached)
  }

  const SECOND_HEAP: Heap := Heap(0x1_0000, 0x2000_0000, false, 0xFFFF_0000, 0xFFFF_FFFF_FFFF_0000, None, 0)

  /** One page of 64 KB. */
  const ONE_PAGE: Memory := Memory(false, 0x1_0000, 1, 1, 0x3000_0000, 0x3001_0000, 0x1_0000, 0x3001_0000, 0x3001_0000)

  /** `n` instances, all attached to the first heap. */
  predicate Filled(s: State, n: nat) {
    s.heaps == [FirstHeap(n), SECOND_HEAP] && |s.instances| == n && Count(s.instances, 0) == n
  }

  lemma Created(base: nat, size: u32, osPage: nat)
    requires size == 0x1_0000 && osPage == 4096
    ensures NewHeap(size, Some(base), true, None, osPage)
         == Some(Heap(0x1_0000, base, false, 0xFFFF_0000, 0xFFFF_FFFF_FFFF_0000, None, 0))
  {
    OneWrap(size + osPage - 1, U32);
  }

  lemma TwoHeaps() returns (run: seq<Op>)
    ensures ValidRun(EMPTY, run) && Filled(After(EMPTY, run), 0)
  {
    var a := Create(0x1_0000, Some(0x1000_0000), true, None, 4096);
    var b := Create(0x1_0000, Some(0x2000_0000), true, None, 4096);
    Created(0x1000_0000, 0x1_0000, 4096);
    Created(0x2000_0000, 0x1_0000, 4096);
    RunAppend(EMPTY, [], a);
    RunAppend(EMPTY, [] + [a], b);
    var s := After(EMPTY, [] + [a] + [b]);
    var first := FirstHeap(0).(start32 := 0xFFFF_0000, start64 := 0xFFFF_FFFF_FFFF_0000, next := None);
    assert s.heaps == [first, SECOND_HEAP];
    Chainable(s.heaps, first);
    RunAppend(EMPTY, [] + [a] + [b], ChainHeaps(0, 1));
    run := [] + [a] + [b] + [ChainHeaps(0, 1)];
  }

  lemma Chainable(heaps: seq<Heap>, first: Heap)
    requires first == FirstHeap(0).(start32 := 0xFFFF_0000, start64 := 0xFFFF_FFFF_FFFF_0000, next := None)
    requires Linked(heaps) && heaps == [first, SECOND_HEAP]
    ensures CanChain(heaps, 0, 1) && Chained(heaps, 0, 1) == [FirstHeap(0), SECOND_HEAP]
  {
    OneWrap(0xFFFF_FFFF_FFFE_0000, U64);
    OneWrap(0xFFFE_0000, U64);
  }

  /** One more instance, not attached yet. */
  lemma NewInstance(s: State, n: nat)
    requires Inv(s) && Filled(s, n) && n < 256
    ensures CallerOk(s, Instantiate(Some(ONE_PAGE)))
    ensures var t := Do(s, Instantiate(Some(ONE_PAGE)));
            && t.heaps == s.heaps && |t.instances| == n + 1 && Count(t.instances, 0) == n
            && Root(t.heaps, 0) && CanAttach(t, n, 0)
  {
    CountAppend(s.instances, Instance(Some(ONE_PAGE), None, INITIAL_CACHE), 0);
  }

  lemma OneMoreAttached(s: State, n: nat)
    requires Inv(s) && Filled(s, n) && n < 255
    ensures CallerOk(s, Instantiate(Some(ONE_PAGE)))
    ensures var t := Do(s, Instantiate(Some(ONE_PAGE)));
            Inv(t) && CallerOk(t, AttachHeap(n, 0)) && Filled(Do(t, AttachHeap(n, 0)), n + 1)
  {
    NewInstance(s, n);
    StepKeepsInv(s, Instantiate(Some(ONE_PAGE)));
    var t := Do(s, Instantiate(Some(ONE_PAGE)));
    AttachCounts(t, n, 0, 0);
    OneWrap(n + 1, U8);
  }

  lemma {:induction false} Fill(n: nat) returns (run: seq<Op>)
    requires n <= 255
    ensures ValidRun(EMPTY, run) && Filled(After(EMPTY, run), n)
  {
    if n == 0 {
      run := TwoHeaps();
    } else {
      var before := Fill(n - 1);
      OneMoreAttached(After(EMPTY, before), n - 1);
      RunAppend(EMPTY, before, Instantiate(Some(ONE_PAGE)));
      RunAppend(EMPTY, before + [Instantiate(Some(ONE_PAGE))], AttachHeap(n - 1, 0));
      run := before + [Instantiate(Some(ONE_PAGE))] + [AttachHeap(n - 1, 0)];
    }
  }

  /** A run after which one more attachment, which the code allows, makes the count of 256
      attached instances zero, so that the guard lets the chain under them be taken apart. */
  lemma CountWraps() returns (run: seq<Op>)
    ensures ValidRun(EMPTY, run)
    ensures var s := After(EMPTY, run);
            && |s.instances| == 256 && |s.heaps| == 2 && Root(s.heaps, 0) && CanAttach(s, 255, 0)
                && Count(s.instances, 0) == 255
            && var r := Attach(s, 255, 0).0;
               && Count(r.instances, 0) == 256 && CanUnchain(r.heaps, 0)
               && Linked(r.heaps) && Linked(Unchained(r.heaps, 0, true)) && |Unchained(r.heaps, 0, true)| == 2
               && !SameChain(r.heaps, Unchained(r.heaps, 0, true), 0)
  {
    var before := Fill(255);
    NewInstance(After(EMPTY, before), 255);
    RunAppend(EMPTY, before, Instantiate(Some(ONE_PAGE)));
    run := before + [Instantiate(Some(ONE_PAGE))];
    var s := After(EMPTY, run);
    AttachCounts(s, 255, 0, 0);
    OneWrap(256, U8);
    TakenApart(Attach(s, 255, 0).0.heaps);
  }

  lemma TakenApart(heaps: seq<Heap>)
    requires heaps == [FirstHeap(0), SECOND_HEAP]
    ensures Linked(heaps) && Linked(Unchained(heaps, 0, true)) && |Unchained(heaps, 0, true)| == 2
    ensures !SameChain(heaps, Unchained(heaps, 0, true), 0)
  {
    assert HeapOk(heaps, 0) && HeapOk(heaps, 1);
    UnchainLinks(heaps, 0, true);
    UnchainFrame(heaps, 0, true, 0);
    assert Chain(heaps, 1) == [1] && Chain(heaps, 0) == [0] + [1];
  }
}
