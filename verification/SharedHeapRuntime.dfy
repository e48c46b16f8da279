/** The runtime's shared-heap functions as they run: the global heap list and the
    instances are updated in place, and lookups trust the cache before walking. */
module SharedHeapRuntime {
  import opened Bits
  import opened LinearMemory
  import opened SharedHeap
  import opened HeapRuntime

  /** The range test of the lookups, on first and last offset. */
  predicate InRange(start: nat, end: nat, off: nat, n: nat)
    requires n > 0
  {
    n - 1 <= end && off >= start && off <= end - n + 1
  }

  lemma RangeIsContains(h: Heap, is64: bool, off: nat, n: nat)
    requires 0 < h.size && Start(h, is64) + h.size <= U64 && n > 0
    ensures InRange(Start(h, is64), Wrap64(Start(h, is64) - 1 + h.size), off, n) <==> Contains(h, is64, off, n)
  {
    OneWrap(Start(h, is64) - 1 + h.size, U64);
  }

  /** The walk of `is_app_addr_in_shared_heap`. */
  method FindAppHeap(heaps: seq<Heap>, root: nat, is64: bool, off: nat, n: nat) returns (r: Option<nat>)
    requires Linked(heaps) && root < |heaps| && n > 0
    ensures r == Find(heaps, Chain(heaps, root), is64, off, n)
  {
    var cur: nat := root;
    while true
      invariant cur < |heaps|
      invariant Find(heaps, Chain(heaps, root), is64, off, n) == Find(heaps, Chain(heaps, cur), is64, off, n)
      decreases Rank(heaps, cur)
    {
      assert HeapOk(heaps, cur);
      RangeIsContains(heaps[cur], is64, off, n);
      var start := Start(heaps[cur], is64);
      var end := Wrap64(start - 1 + heaps[cur].size);
      FindStep(heaps, cur, is64, off, n);
      if InRange(start, end, off, n) {
        return Some(cur);
      }
      if heaps[cur].next.None? {
        return None;
      }
      assert HeapOk(heaps, heaps[cur].next.value);
      cur := heaps[cur].next.value;
    }
  }

  lemma FindStep(heaps: seq<Heap>, cur: nat, is64: bool, off: nat, n: nat)
    requires Linked(heaps) && cur < |heaps|
    ensures Find(heaps, Chain(heaps, cur), is64, off, n)
         == if Contains(heaps[cur], is64, off, n) then Some(cur)
            else if heaps[cur].next.None? then None
            else (assert HeapOk(heaps, cur); Find(heaps, Chain(heaps, heaps[cur].next.value), is64, off, n))
  {
    assert HeapOk(heaps, cur);
    if heaps[cur].next.Some? {
      assert Chain(heaps, cur)[1..] == Chain(heaps, heaps[cur].next.value);
    } else {
      assert Chain(heaps, cur)[1..] == [];
    }
  }

  /** The walk of `is_native_addr_in_shared_heap`, whose end address may wrap to be skipped. */
  method FindNativeHeap(heaps: seq<Heap>, root: nat, addr: nat, bytes: u32) returns (r: Option<nat>)
    requires Linked(heaps) && root < |heaps| && addr < U64
    ensures r == FindNative(heaps, Chain(heaps, root), addr, bytes)
  {
    var cur: nat := root;
    while true
      invariant cur < |heaps|
      invariant FindNative(heaps, Chain(heaps, root), addr, bytes) == FindNative(heaps, Chain(heaps, cur), addr, bytes)
      decreases Rank(heaps, cur)
    {
      assert HeapOk(heaps, cur);
      var h := heaps[cur];
      OneWrap(addr + bytes, U64);
      var endAddr := Wrap64(addr + bytes);
      FindNativeStep(heaps, cur, addr, bytes);
      if !(addr < h.base) && !(endAddr <= addr) && !(endAddr > h.base + h.size) {
        return Some(cur);
      }
      if h.next.None? {
        return None;
      }
      assert HeapOk(heaps, h.next.value);
      cur := h.next.value;
    }
  }

  lemma FindNativeStep(heaps: seq<Heap>, cur: nat, addr: nat, n: nat)
    requires Linked(heaps) && cur < |heaps|
    ensures FindNative(heaps, Chain(heaps, cur), addr, n)
         == if NativeContains(heaps[cur], addr, n) then Some(cur)
            else if heaps[cur].next.None? then None
            else (assert HeapOk(heaps, cur); FindNative(heaps, Chain(heaps, heaps[cur].next.value), addr, n))
  {
    assert HeapOk(heaps, cur);
    if heaps[cur].next.Some? {
      assert Chain(heaps, cur)[1..] == Chain(heaps, heaps[cur].next.value);
    } else {
      assert Chain(heaps, cur)[1..] == [];
    }
  }

  /** The scan of the global list: neither heap may be a body, nor `head` already a head. */
  method ListAllowsChain(heaps: seq<Heap>, head: nat, body: nat) returns (ok: bool)
    requires head < |heaps| && body < |heaps|
    ensures ok <==> Root(heaps, head) && Root(heaps, body) && heaps[head].next.None?
  {
    var cur := |heaps|;
    while cur > 0
      invariant 0 <= cur <= |heaps|
      invariant forall y: nat :: cur <= y < |heaps| ==> heaps[y].next != Some(head) && heaps[y].next != Some(body)
      invariant cur <= head ==> heaps[head].next.None?
    {
      cur := cur - 1;
      if heaps[cur].next == Some(body) || heaps[cur].next == Some(head) {
        return false;
      }
      if cur == head && heaps[cur].next.Some? {
        return false;
      }
    }
    return true;
  }

  /** The handle scan: starting with `exist`, is there never a second allocator? */
  method AtMostOneHandle(heaps: seq<Heap>, exist0: bool, body: nat) returns (ok: bool)
    requires Linked(heaps) && body < |heaps|
    ensures ok <==> (if exist0 then 1 else 0) + Handles(heaps, body) <= 1
  {
    var exist, cur: nat := exist0, body;
    while true
      invariant cur < |heaps|
      invariant (if exist0 then 1 else 0) + Handles(heaps, body) == (if exist then 1 else 0) + Handles(heaps, cur)
      decreases Rank(heaps, cur)
    {
      assert HeapOk(heaps, cur);
      if heaps[cur].hasHandle && exist {
        return false;
      }
      if heaps[cur].hasHandle {
        exist := true;
      }
      if heaps[cur].next.None? {
        return true;
      }
      assert HeapOk(heaps, heaps[cur].next.value);
      cur := heaps[cur].next.value;
    }
  }

  method StandAlone(h: Heap) returns (r: Heap)
    requires h.size <= U32
    ensures r == Alone(h)
  {
    r := h.(start64 := U64 - h.size, start32 := U32 - h.size, next := None);
  }

  /** The first `k` heaps of the chain are off, and `cur` is the next one. */
  ghost predicate Off(heaps0: seq<Heap>, head: nat, k: nat, heaps: seq<Heap>, cur: nat)
    requires Linked(heaps0) && head < |heaps0|
  {
    && k < |Chain(heaps0, head)| && cur == Chain(heaps0, head)[k] && cur < |heaps0|
    && heaps == ResetAll(heaps0, Chain(heaps0, head)[..k]) && heaps[cur] == heaps0[cur]
  }

  lemma NoneOff(heaps: seq<Heap>, head: nat)
    requires Linked(heaps) && head < |heaps|
    ensures Off(heaps, head, 0, heaps, head)
  {
    ChainFacts(heaps, head);
    assert heaps == ResetAll(heaps, Chain(heaps, head)[..0]);
  }

  /** The next heap is well sized and has a successor unless it is the last. */
  lemma NextFacts(heaps: seq<Heap>, head: nat, k: nat, x: nat)
    requires Linked(heaps) && head < |heaps| && k < |Chain(heaps, head)| && x == Chain(heaps, head)[k]
    ensures heaps[x].size <= U32 && (heaps[x].next.Some? <==> k + 1 < |Chain(heaps, head)|)
    ensures heaps[x].next.Some? ==> heaps[x].next.value == Chain(heaps, head)[k + 1]
  {
    var c := Chain(heaps, head);
    ChainFacts(heaps, head);
    assert HeapOk(heaps, x);
    if k + 1 == |c| {
      assert c[|c| - 1] == x;
    } else {
      assert heaps[c[k]].next == Some(c[k + 1]);
    }
  }

  lemma StillThere(heaps: seq<Heap>, head: nat, k: nat)
    requires Linked(heaps) && head < |heaps| && k < |Chain(heaps, head)|
    ensures ResetAll(heaps, Chain(heaps, head)[..k])[Chain(heaps, head)[k]] == heaps[Chain(heaps, head)[k]]
  {
    NoRepeat(heaps, head, k);
    ResetOthers(heaps, Chain(heaps, head)[..k], Chain(heaps, head)[k]);
  }

  lemma OneMoreReset(heaps: seq<Heap>, c: seq<nat>, k: nat)
    requires Linked(heaps) && k < |c| && c[k] < |heaps| && heaps[c[k]].size <= U32
    ensures ResetAll(heaps, c[..k + 1]) == ResetAll(heaps, c[..k])[c[k] := Alone(heaps[c[k]])]
  {
    assert c[..k + 1] == c[..k] + [c[k]];
    ResetOneMore(heaps, c[..k], c[k]);
  }

  /** Taking one more heap off the front of a chain. */
  lemma OneMoreOff(heaps0: seq<Heap>, head: nat, k: nat, heaps: seq<Heap>, cur: nat)
    requires Linked(heaps0) && head < |heaps0| && Off(heaps0, head, k, heaps, cur)
    requires heaps[cur].size <= U32 && heaps[cur].next.Some?
    ensures Off(heaps0, head, k + 1, heaps[cur := Alone(heaps[cur])], heaps[cur].next.value)
  {
    NextFacts(heaps0, head, k, cur);
    OneMoreReset(heaps0, Chain(heaps0, head), k);
    StillThere(heaps0, head, k + 1);
  }

  method TakeOff(heaps: seq<Heap>, cur: nat, ghost heaps0: seq<Heap>, ghost head: nat, ghost k: nat)
    returns (rest: seq<Heap>, next: nat)
    requires Linked(heaps0) && head < |heaps0| && Off(heaps0, head, k, heaps, cur) && heaps[cur].next.Some?
    ensures Off(heaps0, head, k + 1, rest, next)
  {
    NextFacts(heaps0, head, k, cur);
    OneMoreOff(heaps0, head, k, heaps, cur);
    next := heaps[cur].next.value;
    var alone := StandAlone(heaps[cur]);
    rest := heaps[cur := alone];
  }

  lemma TakenOffIs(heaps: seq<Heap>, head: nat, entire: bool, k: nat, x: nat)
    requires Linked(heaps) && head < |heaps| && heaps[head].next.Some?
    requires k < |Chain(heaps, head)| && x == Chain(heaps, head)[k]
    requires if entire then heaps[x].next.None? else k == 1
    ensures k == TakenOff(heaps, head, entire)
  {
    NextFacts(heaps, head, k, x);
  }

  lemma AllOff(heaps0: seq<Heap>, head: nat, entire: bool, k: nat, heaps: seq<Heap>, cur: nat)
    requires Linked(heaps0) && head < |heaps0| && Off(heaps0, head, k, heaps, cur)
    requires k == TakenOff(heaps0, head, entire)
    ensures heaps == Unchained(heaps0, head, entire) && cur == Chain(heaps0, head)[TakenOff(heaps0, head, entire)]
  {
  }

  /** The loop of `wasm_runtime_unchain_shared_heaps` over the list in place. */
  method TakeOffAll(heaps0: seq<Heap>, head: nat, entire: bool)
    returns (heaps: seq<Heap>, cur: nat, ghost k: nat)
    requires Linked(heaps0) && head < |heaps0| && heaps0[head].next.Some?
    ensures Off(heaps0, head, k, heaps, cur)
    ensures if entire then heaps0[cur].next.None? else k == 1
  {
    NoneOff(heaps0, head);
    heaps, cur, k := heaps0, head, 0;
    while heaps[cur].next.Some?
      invariant Off(heaps0, head, k, heaps, cur)
      invariant !entire ==> k == 0 && heaps[cur].next.Some?
      decreases |Chain(heaps0, head)| - k
    {
      heaps, cur := TakeOff(heaps, cur, heaps0, head, k);
      k := k + 1;
      if !entire {
        break;
      }
    }
  }

  method ResetChain(heaps0: seq<Heap>, head: nat, entire: bool) returns (heaps: seq<Heap>, cur: nat)
    requires Linked(heaps0) && head < |heaps0| && heaps0[head].next.Some?
    ensures heaps == Unchained(heaps0, head, entire)
    ensures cur == Chain(heaps0, head)[TakenOff(heaps0, head, entire)]
  {
    ghost var k;
    heaps, cur, k := TakeOffAll(heaps0, head, entire);
    TakenOffIs(heaps0, head, entire, k, cur);
    AllOff(heaps0, head, entire, k, heaps, cur);
  }

  lemma ResetOthers(heaps: seq<Heap>, off: seq<nat>, x: nat)
    requires Linked(heaps) && x < |heaps| && x !in off
    ensures ResetAll(heaps, off)[x] == heaps[x]
  {
  }

  lemma ResetOneMore(heaps: seq<Heap>, off: seq<nat>, x: nat)
    requires Linked(heaps) && x < |heaps| && heaps[x].size <= U32
    ensures ResetAll(heaps, off + [x]) == ResetAll(heaps, off)[x := Alone(heaps[x])]
  {
  }

  lemma NoRepeat(heaps: seq<Heap>, root: nat, k: nat)
    requires Linked(heaps) && root < |heaps| && k < |Chain(heaps, root)|
    ensures Chain(heaps, root)[k] !in Chain(heaps, root)[..k]
    decreases Rank(heaps, root)
  {
    assert HeapOk(heaps, root);
    var c := Chain(heaps, root);
    ChainFacts(heaps, root);
    if k > 0 {
      var y := heaps[root].next.value;
      assert HeapOk(heaps, y);
      NoRepeat(heaps, y, k - 1);
      ChainOrder(heaps, root, k);
      assert c == [root] + Chain(heaps, y);
      assert c[..k] == [root] + Chain(heaps, y)[..k - 1];
      assert Start(heaps[root], true) < Start(heaps[c[k]], true);
    }
  }

  /** A range the cache accepts is the range of the heap the cache describes, so the walk
      would find the same heap and leave the cache as it is. */
  lemma CacheHit(s: State, i: nat, off: nat, bytes: u32)
    requires Inv(s) && i < |s.instances| && s.instances[i].heap.Some?
    requires InRange(s.instances[i].cache.start, s.instances[i].cache.end, off, Bytes(bytes))
    ensures InstanceOk(s.heaps, s.instances[i]) && Lookup(s, i, off, bytes) == (s, true)
  {
    var inst := s.instances[i];
    assert InstanceOk(s.heaps, inst);
    var root, is64, c := inst.heap.value, inst.mem.value.is64, Chain(s.heaps, inst.heap.value);
    var x :| x in c && inst.cache == Describe(s.heaps[x], is64);
    assert HeapOk(s.heaps, x);
    RangeIsContains(s.heaps[x], is64, off, Bytes(bytes));
    FoundIs(s.heaps, root, is64, off, Bytes(bytes), x);
    assert s.instances[i := inst] == s.instances;
  }

  /** The caches of instances without a heap accept no range. */
  lemma EmptyCaches(off: nat, n: nat)
    requires off < U64 && n > 0
    ensures !InRange(DETACHED_CACHE.start, DETACHED_CACHE.end, off, n)
    ensures !InRange(INITIAL_CACHE.start, INITIAL_CACHE.end, off, n)
  {
  }

  /** The early stop rejects only ranges that no heap of the chain holds. */
  lemma EarlyStop(heaps: seq<Heap>, root: nat, is64: bool, off: nat, n: nat)
    requires Linked(heaps) && root < |heaps| && n > 0
    requires !InRange(Start(heaps[root], is64), Top(is64) - 1, off, n)
    ensures Find(heaps, Chain(heaps, root), is64, off, n) == None
  {
    var c := Chain(heaps, root);
    forall k | 0 <= k < |c|
      ensures !Contains(heaps[c[k]], is64, off, n)
    {
      ChainOrder(heaps, root, k);
      assert Start(heaps[root], is64) <= Start(heaps[c[k]], is64);
    }
  }

  /** `align_uint` by the system page. */
  method AlignUint(size: u32, osPage: nat) returns (aligned: nat)
    requires osPage > 0
    ensures aligned == Wrap32(size + osPage - 1) / osPage * osPage
    ensures size > 0 ==> aligned == if size + osPage - 1 < U32 then Rounded(size, osPage) else 0
  {
    if size > 0 {
      AlignedIs(size, osPage);
    }
    aligned := Wrap32(size + osPage - 1) / osPage * osPage;
  }

  class Runtime {
    var heaps: seq<Heap>
    var instances: seq<Instance>

    ghost function Now(): State
      reads this
    {
      State(heaps, instances)
    }

    constructor ()
      ensures Now() == EMPTY
    {
      heaps, instances := [], [];
    }

    method CreateSharedHeap(size: u32, preAllocated: Option<nat>, structOk: bool, mapped: Option<nat>, osPage: nat)
      returns (r: Option<nat>)
      requires Inv(Now()) && CallerOk(Now(), Create(size, preAllocated, structOk, mapped, osPage))
      modifies this
      ensures Now() == Do(old(Now()), Create(size, preAllocated, structOk, mapped, osPage)) && Inv(Now())
      ensures r == if |heaps| == old(|heaps|) then None else Some(old(|heaps|))
    {
      StepKeepsInv(Now(), Create(size, preAllocated, structOk, mapped, osPage));
      if size == 0 || !structOk {
        return None;
      }
      var aligned := AlignUint(size, osPage);
      if aligned > APP_HEAP_SIZE_MAX || aligned < APP_HEAP_SIZE_MIN {
        return None;
      }
      var base;
      if preAllocated.Some? {
        if aligned != size {
          return None;
        }
        base := preAllocated.value;
      } else {
        if mapped.None? {
          return None;
        }
        base := mapped.value;
      }
      var h := Heap(aligned, base, preAllocated.None?, U32 - 1 - aligned + 1, U64 - 1 - aligned + 1, None, 0);
      r := Some(|heaps|);
      heaps := heaps + [h];
    }

    method ChainSharedHeaps(head: nat, body: nat) returns (r: Option<nat>)
      requires Inv(Now()) && CallerOk(Now(), ChainHeaps(head, body))
      modifies this
      ensures Now() == Do(old(Now()), ChainHeaps(head, body)) && Inv(Now())
      ensures r == if old(CanChain(heaps, head, body)) then Some(head) else None
    {
      StepKeepsInv(Now(), ChainHeaps(head, body));
      if heaps[head].attached != 0 || heaps[body].attached != 0 {
        return None;
      }
      var allowed := ListAllowsChain(heaps, head, body);
      if !allowed {
        return None;
      }
      allowed := AtMostOneHandle(heaps, heaps[head].hasHandle, body);
      if !allowed {
        return None;
      }
      var h, b := heaps[head], heaps[body];
      heaps := heaps[head := h.(start64 := Wrap64(b.start64 - h.size), start32 := Wrap64(b.start32 - h.size),
          next := Some(body))];
      return Some(head);
    }

    method UnchainSharedHeaps(head: nat, entire: bool) returns (r: Option<nat>)
      requires Inv(Now()) && CallerOk(Now(), UnchainHeaps(head, entire))
      modifies this
      ensures Now() == Do(old(Now()), UnchainHeaps(head, entire)) && Inv(Now())
      ensures r == if old(CanUnchain(heaps,
          head)) then Some(old(Chain(heaps, head)[TakenOff(heaps, head, entire)])) else None
    {
      StepKeepsInv(Now(), UnchainHeaps(head, entire));
      if heaps[head].next.None? || heaps[head].attached != 0 {
        return None;
      }
      var cur;
      heaps, cur := ResetChain(heaps, head, entire);
      return Some(cur);
    }

    method AttachSharedHeap(i: nat, x: nat) returns (ok: bool)
      requires Inv(Now()) && CallerOk(Now(), AttachHeap(i, x))
      modifies this
      ensures Now() == Do(old(Now()), AttachHeap(i, x)) && Inv(Now())
      ensures ok <==> old(CanAttach(Now(), i, x))
    {
      StepKeepsInv(Now(), AttachHeap(i, x));
      var inst, h := instances[i], heaps[x];
      if inst.mem.None? {
        return false;
      }
      var m := inst.mem.value;
      if (m.is64 && m.dataSize > h.start64) || (!m.is64 && m.dataSize > h.start32) {
        return false;
      }
      if inst.heap.Some? {
        return false;
      }
      instances := instances[i := inst.(heap := Some(x), cache := Describe(h, m.is64))];
      heaps := heaps[x := h.(attached := Wrap8(h.attached + 1))];
      return true;
    }

    method DetachSharedHeap(i: nat)
      requires Inv(Now()) && i < |instances|
      modifies this
      ensures Now() == Do(old(Now()), DetachHeap(i)) && Inv(Now())
    {
      StepKeepsInv(Now(), DetachHeap(i));
      var inst := instances[i];
      assert InstanceOk(heaps, inst);
      if inst.heap.Some? {
        var x := inst.heap.value;
        heaps := heaps[x := heaps[x].(attached := Wrap8(heaps[x].attached - 1))];
      }
      instances := instances[i := inst.(heap := None, cache := DETACHED_CACHE)];
    }

    /** The cached lookup gives the answer and the cache of the plain walk. */
    method IsAppAddrInSharedHeap(i: nat, off: nat, bytes: u32) returns (found: bool)
      requires Inv(Now()) && i < |instances| && off < U64
      modifies this
      ensures Now() == Do(old(Now()), FindApp(i, off, bytes)) && Inv(Now())
      ensures old(InstanceOk(heaps, instances[i])) && found == old(Lookup(Now(), i, off, bytes).1)
    {
      StepKeepsInv(Now(), FindApp(i, off, bytes));
      var inst := instances[i];
      assert InstanceOk(heaps, inst);
      if inst.heap.None? {
        return false;
      }
      var n := if bytes == 0 then 1 else bytes;
      if InRange(inst.cache.start, inst.cache.end, off, n) {
        CacheHit(Now(), i, off, bytes);
        return true;
      }
      var root, is64 := inst.heap.value, inst.mem.value.is64;
      if !InRange(Start(heaps[root], is64), (if is64 then U64 else U32) - 1, off, n) {
        EarlyStop(heaps, root, is64, off, n);
        return false;
      }
      var r := FindAppHeap(heaps, root, is64, off, n);
      if r.Some? {
        instances := instances[i := inst.(cache := Describe(heaps[r.value], is64))];
      }
      return r.Some?;
    }

    method IsNativeAddrInSharedHeap(i: nat, addr: nat, bytes: u32) returns (found: bool)
      requires Inv(Now()) && i < |instances| && addr < U64
      modifies this
      ensures Now() == Do(old(Now()), FindNativeAddr(i, addr, bytes)) && Inv(Now())
      ensures old(InstanceOk(heaps, instances[i])) && found == old(NativeLookup(Now(), i, addr, bytes).1)
    {
      StepKeepsInv(Now(), FindNativeAddr(i, addr, bytes));
      var inst := instances[i];
      assert InstanceOk(heaps, inst);
      if inst.heap.None? {
        return false;
      }
      var r := FindNativeHeap(heaps, inst.heap.value, addr, bytes);
      if r.Some? {
        instances := instances[i := inst.(cache := Describe(heaps[r.value], inst.mem.value.is64))];
      }
      return r.Some?;
    }

    /** `wasm_enlarge_memory` on the default memory. */
    method EnlargeMemory(i: nat, inc: u32, platform: Platform) returns (ok: bool)
      requires Inv(Now()) && i < |instances|
      modifies this
      ensures Now() == Do(old(Now()), GrowMemory(i, inc, platform)) && Inv(Now())
      ensures old(InstanceOk(heaps, instances[i])) && ok == old(Grow(Now(), i, inc, platform).1)
    {
      StepKeepsInv(Now(), GrowMemory(i, inc, platform));
      var inst := instances[i];
      assert InstanceOk(heaps, inst);
      if inst.mem.None? {
        return false;
      }
      var m := inst.mem.value;
      var limit := None;
      if inst.heap.Some? {
        var h := heaps[inst.heap.value];
        limit := Some(if m.is64 then h.start64 else h.start32);
      }
      m, ok := EnlargeMemoryInternal(m, Growth(inc, platform, limit));
      instances := instances[i := inst.(mem := Some(m))];
    }
  }
}
