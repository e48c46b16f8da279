/** Shared heaps: created, chained into one downward-growing range of app addresses,
    attached to module instances, detached and unchained. Heaps and instances are named
    by their index of creation; pointers are 64-bit. */
module SharedHeap {
  import opened Bits
  import opened LinearMemory

  const APP_HEAP_SIZE_MIN: nat := 256

  /** `attached` is an 8-bit counter. */
  datatype Heap = Heap(
    size: nat,
    base: nat,
    hasHandle: bool,
    start32: nat,
    start64: nat,
    next: Option<nat>,
    attached: nat)

  /** The last used heap as an instance remembers it: first and last app offset, and the
      native base adjusted so that adding an app offset gives the native address. */
  datatype Cache = Cache(start: nat, end: nat, adj: nat)

  datatype Instance = Instance(mem: Option<Memory>, heap: Option<nat>, cache: Cache)

  datatype State = State(heaps: seq<Heap>, instances: seq<Instance>)

  function Start(h: Heap, is64: bool): nat {
    if is64 then h.start64 else h.start32
  }

  function Top(is64: bool): nat {
    if is64 then U64 else U32
  }

  function Describe(h: Heap, is64: bool): Cache {
    Cache(Start(h, is64), Wrap64(Start(h, is64) - 1 + h.size), Wrap64(h.base - Start(h, is64)))
  }

  const DETACHED_CACHE := Cache(U64 - 1, U64 - 2, 0)
  const INITIAL_CACHE := Cache(U64 - 1, 0, 0)

  // ----- Chains -----

  /** A heap ends where its successor begins, and the last heap ends at the top. */
  predicate HeapOk(heaps: seq<Heap>, x: nat)
    requires x < |heaps|
  {
    var h := heaps[x];
    && 0 < h.size <= APP_HEAP_SIZE_MAX && 0 < h.base && h.base + h.size < U64 && h.attached < U8
    && h.start64 + h.size <= U64 && h.start32 + h.size <= U32
    && (h.next.Some? ==>
          && h.next.value < |heaps|
          && h.start64 + h.size == heaps[h.next.value].start64
          && h.start32 + h.size == heaps[h.next.value].start32)
    && (h.next.None? ==> h.start64 + h.size == U64 && h.start32 + h.size == U32)
  }

  ghost predicate Linked(heaps: seq<Heap>) {
    && (forall x: nat :: x < |heaps| ==> HeapOk(heaps, x))
    && (forall x: nat, y: nat ::
          x < |heaps| && y < |heaps| && heaps[x].next.Some? && heaps[x].next == heaps[y].next ==> x == y)
  }

  /** No heap has `x` as its successor. */
  predicate Root(heaps: seq<Heap>, x: nat) {
    forall y: nat :: y < |heaps| ==> heaps[y].next != Some(x)
  }

  function Rank(heaps: seq<Heap>, x: nat): int
    requires x < |heaps|
  {
    U64 - heaps[x].start64
  }

  /** The heaps from `x` to the end of its chain. */
  ghost function Chain(heaps: seq<Heap>, x: nat): (c: seq<nat>)
    requires Linked(heaps) && x < |heaps|
    ensures forall k :: 0 <= k < |c| ==> c[k] < |heaps|
    decreases Rank(heaps, x)
  {
    assert HeapOk(heaps, x);
    match heaps[x].next
    case None => [x]
    case Some(y) => (assert HeapOk(heaps, y); [x] + Chain(heaps, y))
  }

  /** How many heaps from `x` on can allocate. */
  ghost function Handles(heaps: seq<Heap>, x: nat): nat
    requires Linked(heaps) && x < |heaps|
    decreases Rank(heaps, x)
  {
    assert HeapOk(heaps, x);
    (if heaps[x].hasHandle then 1 else 0)
    + match heaps[x].next
      case None => 0
      case Some(y) => (assert HeapOk(heaps, y); Handles(heaps, y))
  }

  lemma {:induction false} ChainFacts(heaps: seq<Heap>, x: nat)
    requires Linked(heaps) && x < |heaps|
    ensures var c := Chain(heaps, x);
            && |c| > 0 && c[0] == x
            && (forall k :: 0 <= k < |c| ==> c[k] < |heaps|)
            && (forall k :: 0 <= k < |c| - 1 ==> heaps[c[k]].next == Some(c[k + 1]))
            && heaps[c[|c| - 1]].next.None?
    decreases Rank(heaps, x)
  {
    assert HeapOk(heaps, x);
    if heaps[x].next.Some? {
      assert HeapOk(heaps, heaps[x].next.value);
      ChainFacts(heaps, heaps[x].next.value);
    }
  }

  /** Along a chain the app intervals are disjoint and in order, so no heap repeats. */
  lemma {:induction false} ChainOrder(heaps: seq<Heap>, x: nat, k: nat)
    requires Linked(heaps) && x < |heaps| && k < |Chain(heaps, x)|
    ensures var h := heaps[Chain(heaps, x)[k]]; forall is64 ::
              && Start(heaps[x], is64) <= Start(h, is64)
              && Start(h, is64) + h.size <= Top(is64)
              && (k > 0 ==> Start(heaps[x], is64) + heaps[x].size <= Start(h, is64))
    decreases Rank(heaps, x)
  {
    assert HeapOk(heaps, x);
    ChainFacts(heaps, x);
    if heaps[x].next.Some? {
      var y := heaps[x].next.value;
      assert HeapOk(heaps, y);
      if k > 0 {
        ChainOrder(heaps, y, k - 1);
      } else {
        ChainOrder(heaps, y, 0);
        ChainFacts(heaps, y);
      }
    }
  }

  /** If nothing outside `r` leads into `r`, a chain that starts outside stays outside, and
      changes confined to `r` and to counters leave it alone. */
  lemma {:induction false} ChainFrame(heaps: seq<Heap>, heaps': seq<Heap>, r: set<nat>, x: nat)
    requires Linked(heaps) && Linked(heaps') && x < |heaps| <= |heaps'| && x !in r
    requires forall y: nat :: y < |heaps| && y !in r ==> heaps'[y] == heaps[y].(attached := heaps'[y].attached)
    requires forall y: nat :: y < |heaps| && y !in r && heaps[y].next.Some? ==> heaps[y].next.value !in r
    ensures Chain(heaps', x) == Chain(heaps, x) && Handles(heaps', x) == Handles(heaps, x)
    ensures forall y :: y in Chain(heaps, x) ==> y !in r
    decreases Rank(heaps, x)
  {
    assert HeapOk(heaps, x);
    if heaps[x].next.Some? {
      assert HeapOk(heaps, heaps[x].next.value);
      ChainFrame(heaps, heaps', r, heaps[x].next.value);
    }
  }

  /** The first `k` heaps of the chain of a root are entered only from one another. */
  lemma ChainClosed(heaps: seq<Heap>, root: nat, k: nat, y: nat)
    requires Linked(heaps) && root < |heaps| && Root(heaps, root) && k <= |Chain(heaps, root)|
    requires y < |heaps| && y !in Chain(heaps, root)[..k] && heaps[y].next.Some?
    ensures heaps[y].next.value !in Chain(heaps, root)[..k]
  {
    var c := Chain(heaps, root);
    ChainFacts(heaps, root);
    forall j | 0 <= j < k
      ensures c[j] != heaps[y].next.value
    {
      if j > 0 {
        assert heaps[c[j - 1]].next == Some(c[j]) && c[..k][j - 1] == c[j - 1];
      }
    }
  }

  // ----- Operations -----

  /** The part of creation that decides and fills in the fields. `size` is the requested
      32-bit size, `preAllocated` the buffer the host supplies if any, `structOk` whether
      the heap record could be allocated, and `mapped` the memory the runtime maps for a heap
      with an allocator, `None` when mapping it or setting up the allocator fails. */
  function NewHeap(size: u32, preAllocated: Option<nat>, structOk: bool, mapped: Option<nat>, osPage: nat): Option<Heap>
    requires osPage > 0
  {
    var aligned := Wrap32(size + osPage - 1) / osPage * osPage;
    if size == 0 || !structOk || aligned > APP_HEAP_SIZE_MAX || aligned < APP_HEAP_SIZE_MIN then None
    else if preAllocated.Some? && aligned != size then None
    else if preAllocated.None? && mapped.None? then None
    else
      Some(Heap(aligned, if preAllocated.Some? then preAllocated.value else mapped.value, preAllocated.None?,
                U32 - aligned, U64 - aligned, None, 0))
  }

  /** `size` rounded up to the system page. */
  function Rounded(size: nat, osPage: nat): nat
    requires osPage > 0
  {
    size + ToPageEnd(size, osPage)
  }

  lemma RoundedIs(size: nat, osPage: nat)
    requires osPage > 0
    ensures Rounded(size, osPage) % osPage == 0 && size <= Rounded(size, osPage) < size + osPage
    ensures Rounded(size, osPage) == size <==> size % osPage == 0
  {
    RoundedUp(size, osPage);
  }

  /** The 32-bit rounding either is exact or wraps to 0. */
  lemma AlignedIs(size: u32, osPage: nat)
    requires osPage > 0 && size > 0
    ensures Wrap32(size + osPage - 1) / osPage * osPage
         == if size + osPage - 1 < U32 then Rounded(size, osPage) else 0
  {
    if size + osPage - 1 < U32 {
      OneWrap(size + osPage - 1, U32);
      var q, r := size / osPage, size % osPage;
      assert size == q * osPage + r;
      if r == 0 {
        DivModUnique(size + osPage - 1, osPage, q, osPage - 1);
      } else {
        assert (q + 1) * osPage == q * osPage + osPage;
        DivModUnique(size + osPage - 1, osPage, q + 1, r - 1);
      }
    } else {
      if osPage < U32 {
        OneWrap(size + osPage - 1, U32);
      }
      var w := Wrap32(size + osPage - 1);
      DivModUnique(w, osPage, 0, w);
    }
  }

  /** A heap is made exactly if memory is there, the size is not zero and lies within the
      limits when rounded up, and a buffer the host supplies has whole pages. The heap then
      is the requested size rounded up to pages, in the buffer supplied or mapped, with an
      allocator exactly if the host supplies none, and it ends at the top of both ranges. */
  lemma NewHeapExact(size: u32, pre: Option<nat>, structOk: bool, mapped: Option<nat>, osPage: nat)
    requires osPage > 0
    ensures var r := NewHeap(size, pre, structOk, mapped, osPage);
            && (r.Some? <==>
                  && size > 0 && structOk && APP_HEAP_SIZE_MIN <= Rounded(size, osPage) <= APP_HEAP_SIZE_MAX
                  && (if pre.Some? then size % osPage == 0 else mapped.Some?))
            && (r.Some? ==> HeapMade(r.value, size, pre, mapped, osPage))
  {
    if size > 0 {
      AlignedIs(size, osPage);
      RoundedIs(size, osPage);
      if size + osPage - 1 >= U32 {
        PageWithin(Rounded(size, osPage), osPage);
      }
    }
  }

  lemma PageWithin(n: nat, page: nat)
    requires page > 0 && n > 0 && n % page == 0
    ensures page <= n
  {
    if n < page {
      DivModUnique(n, page, 0, n);
    }
  }

  predicate HeapMade(h: Heap, size: nat, pre: Option<nat>, mapped: Option<nat>, osPage: nat)
    requires osPage > 0
  {
    && h.size % osPage == 0 && size <= h.size < size + osPage && (pre.Some? ==> h.size == size)
    && (h.hasHandle <==> pre.None?) && Some(h.base) == (if pre.Some? then pre else mapped)
    && h.start32 + h.size == U32 && h.start64 + h.size == U64 && h.next.None? && h.attached == 0
  }

  /** The guards of `wasm_runtime_chain_shared_heaps`. */
  ghost predicate CanChain(heaps: seq<Heap>, head: nat, body: nat)
    requires Linked(heaps) && head < |heaps| && body < |heaps|
  {
    && heaps[head].attached == 0 && heaps[body].attached == 0
    && Root(heaps, head) && Root(heaps, body) && heaps[head].next.None?
    && (if heaps[head].hasHandle then 1 else 0) + Handles(heaps, body) <= 1
  }

  /** `head` in front of `body`, with 64-bit subtraction. */
  function Chained(heaps: seq<Heap>, head: nat, body: nat): seq<Heap>
    requires head < |heaps| && body < |heaps|
  {
    heaps[head := heaps[head].(start64 := Wrap64(heaps[body].start64 - heaps[head].size),
                               start32 := Wrap64(heaps[body].start32 - heaps[head].size),
                               next := Some(body))]
  }

  function Alone(h: Heap): Heap
    requires h.size <= U32
  {
    h.(start64 := U64 - h.size, start32 := U32 - h.size, next := None)
  }

  predicate CanUnchain(heaps: seq<Heap>, head: nat)
    requires head < |heaps|
  {
    heaps[head].next.Some? && heaps[head].attached == 0
  }

  /** How many heaps of the chain are taken off: the head, or all but the last. */
  ghost function TakenOff(heaps: seq<Heap>, head: nat, entire: bool): (k: nat)
    requires Linked(heaps) && head < |heaps|
    ensures k < |Chain(heaps, head)|
  {
    if entire then |Chain(heaps, head)| - 1 else if heaps[head].next.Some? then 1 else 0
  }

  ghost function Unchained(heaps: seq<Heap>, head: nat, entire: bool): seq<Heap>
    requires Linked(heaps) && head < |heaps|
  {
    ResetAll(heaps, Chain(heaps, head)[..TakenOff(heaps, head, entire)])
  }

  /** The heaps named in `off` stand alone again. */
  ghost function ResetAll(heaps: seq<Heap>, off: seq<nat>): seq<Heap>
    requires Linked(heaps)
  {
    seq(|heaps|, x requires 0 <= x < |heaps| => if x in off then (assert HeapOk(heaps,
        x); Alone(heaps[x])) else heaps[x])
  }

  // ----- The invariant on heaps -----

  ghost predicate HeapsInv(heaps: seq<Heap>) {
    Linked(heaps) && forall x: nat :: x < |heaps| ==> Handles(heaps, x) <= 1
  }

  lemma CreateLinks(heaps: seq<Heap>, h: Heap)
    requires Linked(heaps)
    requires 0 < h.size <= APP_HEAP_SIZE_MAX && 0 < h.base && h.base + h.size < U64 && h.attached == 0
    requires h.next.None? && h.start64 == U64 - h.size && h.start32 == U32 - h.size
    ensures Linked(heaps + [h]) && Root(heaps + [h], |heaps|)
  {
    var heaps' := heaps + [h];
    assert forall x: nat :: x < |heaps| ==> heaps'[x] == heaps[x];
    forall x: nat | x < |heaps'|
      ensures HeapOk(heaps', x) && heaps'[x].next != Some(|heaps|)
    {
      assert x < |heaps| ==> HeapOk(heaps, x);
    }
  }

  lemma CreateKeeps(heaps: seq<Heap>, h: Heap)
    requires HeapsInv(heaps)
    requires 0 < h.size <= APP_HEAP_SIZE_MAX && 0 < h.base && h.base + h.size < U64 && h.attached == 0
    requires h.next.None? && h.start64 == U64 - h.size && h.start32 == U32 - h.size
    ensures HeapsInv(heaps + [h]) && Root(heaps + [h], |heaps|) && Chain(heaps + [h], |heaps|) == [|heaps|]
    ensures forall x: nat :: x < |heaps| ==> Chain(heaps + [h], x) == Chain(heaps, x)
    ensures forall x: nat :: x < |heaps| && Root(heaps, x) ==> Root(heaps + [h], x)
  {
    var heaps' := heaps + [h];
    CreateLinks(heaps, h);
    forall x: nat | x < |heaps|
      ensures Chain(heaps', x) == Chain(heaps, x) && Handles(heaps', x) == Handles(heaps, x)
    {
      ChainFrame(heaps, heaps', {}, x);
    }
  }

  /** A chaining that passes the guards keeps the heaps well linked exactly when the two
      heaps differ and the new range still fits in 32 bits. */
  lemma ChainExact(heaps: seq<Heap>, head: nat, body: nat)
    requires HeapsInv(heaps) && head < |heaps| && body < |heaps| && CanChain(heaps, head, body)
    ensures HeapsInv(Chained(heaps, head, body)) <==> head != body && heaps[head].size <= heaps[body].start32
  {
    var heaps' := Chained(heaps, head, body);
    assert HeapOk(heaps, head) && HeapOk(heaps, body);
    if head != body && heaps[head].size <= heaps[body].start32 {
      ChainKeeps(heaps, head, body);
    } else {
      assert !HeapOk(heaps', head);
    }
  }

  lemma ChainLinks(heaps: seq<Heap>, head: nat, body: nat)
    requires HeapsInv(heaps) && head < |heaps| && body < |heaps| && CanChain(heaps, head, body)
    requires head != body && heaps[head].size <= heaps[body].start32
    ensures Linked(Chained(heaps, head, body))
  {
    var heaps' := Chained(heaps, head, body);
    assert HeapOk(heaps, body) && HeapOk(heaps, head);
    Start32Below(heaps, body);
    forall x: nat | x < |heaps'|
      ensures HeapOk(heaps', x)
    {
      assert HeapOk(heaps, x);
    }
  }

  /** 32-bit offsets stay below 64-bit ones, so room in 32 bits is room in 64. */
  lemma {:induction false} Start32Below(heaps: seq<Heap>, x: nat)
    requires Linked(heaps) && x < |heaps|
    ensures heaps[x].start64 == heaps[x].start32 + (U64 - U32)
    decreases Rank(heaps, x)
  {
    assert HeapOk(heaps, x);
    if heaps[x].next.Some? {
      assert HeapOk(heaps, heaps[x].next.value);
      Start32Below(heaps, heaps[x].next.value);
    }
  }

  lemma ChainKeeps(heaps: seq<Heap>, head: nat, body: nat)
    requires HeapsInv(heaps) && head < |heaps| && body < |heaps| && CanChain(heaps, head, body)
    requires head != body && heaps[head].size <= heaps[body].start32
    ensures var heaps' := Chained(heaps, head, body);
            && HeapsInv(heaps')
            && Chain(heaps', head) == [head] + Chain(heaps, body)
            && (forall x: nat :: x < |heaps| && x != head ==> Chain(heaps', x) == Chain(heaps, x))
            && (forall x: nat :: x < |heaps| && x != body && Root(heaps, x) ==> Root(heaps', x))
  {
    var heaps' := Chained(heaps, head, body);
    ChainLinks(heaps, head, body);
    forall x: nat | x < |heaps| && x != head
      ensures Chain(heaps', x) == Chain(heaps, x) && Handles(heaps', x) == Handles(heaps, x)
    {
      ChainFrame(heaps, heaps', {head}, x);
    }
    assert HeapOk(heaps', head);
  }

  lemma UnchainLinks(heaps: seq<Heap>, head: nat, entire: bool)
    requires Linked(heaps) && head < |heaps| && Root(heaps, head)
    ensures |Unchained(heaps, head, entire)| == |heaps| && Linked(Unchained(heaps, head, entire))
    ensures var off := Chain(heaps, head)[..TakenOff(heaps, head, entire)];
            forall y: nat :: y < |heaps| && y !in off && heaps[y].next.Some? ==> heaps[y].next.value !in off
  {
    var heaps', k := Unchained(heaps, head, entire), TakenOff(heaps, head, entire);
    var off := Chain(heaps, head)[..k];
    forall y: nat | y < |heaps| && y !in off && heaps[y].next.Some?
      ensures heaps[y].next.value !in off
    {
      ChainClosed(heaps, head, k, y);
    }
    forall x: nat | x < |heaps'|
      ensures HeapOk(heaps', x)
    {
      assert HeapOk(heaps, x);
    }
  }

  /** A heap taken off is a chain of its own, and every other heap keeps its chain. */
  lemma UnchainFrame(heaps: seq<Heap>, head: nat, entire: bool, x: nat)
    requires Linked(heaps) && head < |heaps| && Root(heaps, head) && x < |heaps|
    ensures var heaps', off := Unchained(heaps, head, entire), Chain(heaps, head)[..TakenOff(heaps, head, entire)];
            && Linked(heaps') && |heaps'| == |heaps|
            && (x !in off ==> Chain(heaps', x) == Chain(heaps, x) && Handles(heaps', x) == Handles(heaps, x))
            && (x in off ==> Chain(heaps', x) == [x] && Handles(heaps', x) <= 1)
  {
    UnchainLinks(heaps, head, entire);
    var off := Chain(heaps, head)[..TakenOff(heaps, head, entire)];
    if x !in off {
      ChainFrame(heaps, Unchained(heaps, head, entire), (set y | y in off), x);
    }
  }

  lemma UnchainKeeps(heaps: seq<Heap>, head: nat, entire: bool)
    requires HeapsInv(heaps) && head < |heaps| && Root(heaps, head)
    ensures var heaps' := Unchained(heaps, head, entire);
            && |heaps'| == |heaps| && HeapsInv(heaps')
            && (forall x: nat :: x < |heaps| && Root(heaps, x) ==> Root(heaps', x))
            && (forall x: nat :: x < |heaps| && Root(heaps, x) && x != head ==> Chain(heaps', x) == Chain(heaps, x))
  {
    var heaps' := Unchained(heaps, head, entire);
    UnchainLinks(heaps, head, entire);
    forall x: nat | x < |heaps|
      ensures Handles(heaps', x) <= 1
    {
      UnchainFrame(heaps, head, entire, x);
    }
    forall x: nat | x < |heaps| && Root(heaps, x) && x != head
      ensures Chain(heaps', x) == Chain(heaps, x)
    {
      RootNotInside(heaps, head, x);
      UnchainFrame(heaps, head, entire, x);
    }
  }

  // ----- What the guards and the operations mean for chains -----

  /** No two heaps of `c` can allocate. */
  predicate OneHandle(heaps: seq<Heap>, c: seq<nat>)
    requires forall k :: 0 <= k < |c| ==> c[k] < |heaps|
  {
    forall j, k :: 0 <= j < k < |c| ==> !(heaps[c[j]].hasHandle && heaps[c[k]].hasHandle)
  }

  predicate NoHandle(heaps: seq<Heap>, c: seq<nat>)
    requires forall k :: 0 <= k < |c| ==> c[k] < |heaps|
  {
    forall k :: 0 <= k < |c| ==> !heaps[c[k]].hasHandle
  }

  lemma {:induction false} HandlesMean(heaps: seq<Heap>, x: nat)
    requires Linked(heaps) && x < |heaps|
    ensures Handles(heaps, x) == 0 <==> NoHandle(heaps, Chain(heaps, x))
    ensures Handles(heaps, x) <= 1 <==> OneHandle(heaps, Chain(heaps, x))
    decreases Rank(heaps, x)
  {
    assert HeapOk(heaps, x);
    if heaps[x].next.None? {
      assert Chain(heaps, x) == [x] && Chain(heaps, x)[0] == x;
    } else {
      var y := heaps[x].next.value;
      assert HeapOk(heaps, y);
      HandlesMean(heaps, y);
      HandlesBefore(heaps, x, Chain(heaps, y), Chain(heaps, x));
    }
  }

  lemma HandlesBefore(heaps: seq<Heap>, x: nat, rest: seq<nat>, c: seq<nat>)
    requires x < |heaps| && c == [x] + rest && forall k :: 0 <= k < |rest| ==> rest[k] < |heaps|
    ensures NoHandle(heaps, c) <==> !heaps[x].hasHandle && NoHandle(heaps, rest)
    ensures OneHandle(heaps, c) <==> OneHandle(heaps, rest) && (heaps[x].hasHandle ==> NoHandle(heaps, rest))
  {
    assert c[0] == x && forall k :: 1 <= k < |c| ==> c[k] == rest[k - 1];
    if NoHandle(heaps, c) {
      assert forall k :: 0 <= k < |rest| ==> rest[k] == c[k + 1];
    }
    if OneHandle(heaps, c) {
      assert forall k :: 0 <= k < |rest| ==> rest[k] == c[k + 1];
    }
  }

  /** Two chains may be joined exactly if no instance is attached to them, the first is a
      single heap, neither is part of a longer chain, and together they have at most one
      heap that can allocate. */
  lemma CanChainExact(heaps: seq<Heap>, head: nat, body: nat)
    requires Linked(heaps) && head < |heaps| && body < |heaps|
    ensures CanChain(heaps, head, body) <==>
              && heaps[head].attached == 0 && heaps[body].attached == 0
              && Root(heaps, head) && Root(heaps, body) && Chain(heaps, head) == [head]
              && OneHandle(heaps, Chain(heaps, head) + Chain(heaps, body))
  {
    ChainFacts(heaps, head);
    HandlesMean(heaps, body);
    if Chain(heaps, head) == [head] {
      HandlesBefore(heaps, head, Chain(heaps, body), Chain(heaps, head) + Chain(heaps, body));
    }
  }

  /** Unchaining a whole chain leaves each of its heaps alone at the top of both ranges;
      unchaining its head leaves the head alone and the rest of the chain as it was. */
  lemma UnchainedChains(heaps: seq<Heap>, head: nat, entire: bool)
    requires Linked(heaps) && head < |heaps| && Root(heaps, head) && heaps[head].next.Some?
    ensures var heaps' := Unchained(heaps, head, entire);
            && |heaps'| == |heaps| && Linked(heaps') && heaps[head].next.value < |heaps|
            && (entire ==> forall x :: x in Chain(heaps, head) ==> Chain(heaps', x) == [x])
            && (!entire ==> Chain(heaps', head) == [head]
                            && Chain(heaps', heaps[head].next.value) == Chain(heaps, head)[1..])
  {
    var heaps', c := Unchained(heaps, head, entire), Chain(heaps, head);
    var off := c[..TakenOff(heaps, head, entire)];
    assert HeapOk(heaps, head);
    var y := heaps[head].next.value;
    assert HeapOk(heaps, y);
    UnchainLinks(heaps, head, entire);
    ChainFacts(heaps, head);
    assert c == [head] + Chain(heaps, y);
    if entire {
      forall k | 0 <= k < |c|
        ensures Chain(heaps', c[k]) == [c[k]]
      {
        UnchainFrame(heaps, head, entire, c[k]);
        assert k < |c| - 1 ==> off[k] == c[k];
      }
    } else {
      assert off == [head];
      UnchainFrame(heaps, head, entire, head);
      UnchainFrame(heaps, head, entire, y);
    }
  }

  /** A heap that unchaining leaves alone ends at the top again, and no other heap changes. */
  lemma UnchainedFields(heaps: seq<Heap>, head: nat, entire: bool, x: nat)
    requires Linked(heaps) && head < |heaps| && Root(heaps, head) && x < |heaps|
    ensures var heaps' := Unchained(heaps, head, entire);
            && |heaps'| == |heaps| && Linked(heaps') && HeapOk(heaps, x)
            && (if x in Chain(heaps, head) && Chain(heaps', x) == [x] then heaps'[x] == Alone(heaps[x])
                else heaps'[x] == heaps[x])
  {
    UnchainFrame(heaps, head, entire, x);
    assert HeapOk(heaps, x);
  }

  /** Unchaining the head undoes chaining it. */
  lemma UnchainUndoesChain(heaps: seq<Heap>, head: nat, body: nat)
    requires HeapsInv(heaps) && head < |heaps| && body < |heaps| && CanChain(heaps, head, body)
    requires head != body && heaps[head].size <= heaps[body].start32
    ensures Linked(Chained(heaps, head, body)) && Unchained(Chained(heaps, head, body), head, false) == heaps
  {
    var heaps' := Chained(heaps, head, body);
    ChainKeeps(heaps, head, body);
    assert HeapOk(heaps, head) && HeapOk(heaps', head);
    var back := Unchained(heaps', head, false);
    assert Chain(heaps', head)[..1] == [head];
    forall x: nat | x < |heaps|
      ensures back[x] == heaps[x]
    {
      assert x in [head] <==> x == head;
    }
  }

  lemma RootNotInside(heaps: seq<Heap>, head: nat, x: nat)
    requires Linked(heaps) && head < |heaps| && x < |heaps| && Root(heaps, x) && x != head
    ensures x !in Chain(heaps, head)
  {
    ChainFacts(heaps, head);
    var c := Chain(heaps, head);
    forall j | 0 <= j < |c|
      ensures c[j] != x
    {
      if j > 0 {
        assert heaps[c[j - 1]].next == Some(c[j]);
      }
    }
  }
}
