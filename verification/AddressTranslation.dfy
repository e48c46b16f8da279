/** Translation between app offsets and native addresses, and allocation from a chain.
    Bounds checks are enabled; the null pointer is address 0. */
module AddressTranslation {
  import opened Bits
  import opened LinearMemory
  import opened SharedHeap
  import opened HeapRuntime

  predicate InLinear(m: Memory, addr: nat) {
    m.data <= addr < m.dataEnd
  }

  /** What translation needs of the state; every reachable state has it. */
  ghost predicate Translatable(s: State, i: nat) {
    Linked(s.heaps) && i < |s.instances| && InstanceOk(s.heaps, s.instances[i])
  }

  ghost function AppToNative(s: State, i: nat, off: nat): (State, nat)
    requires Translatable(s, i)
  {
    match s.instances[i].mem
    case None => (s, 0)
    case Some(m) =>
      var (r, found) := Lookup(s, i, off, 1);
      if found then (r, Wrap64(r.instances[i].cache.adj + off))
      else if InLinear(m, Wrap64(m.data + off)) then (r, Wrap64(m.data + off))
      else (r, 0)
  }

  ghost function NativeToApp(s: State, i: nat, addr: nat): (State, nat)
    requires Translatable(s, i)
  {
    match s.instances[i].mem
    case None => (s, 0)
    case Some(m) =>
      var (r, found) := NativeLookup(s, i, addr, 1);
      if found then (r, Wrap64(addr - r.instances[i].cache.adj))
      else if InLinear(m, addr) then (r, addr - m.data)
      else (r, 0)
  }

  predicate Apart(a: nat, aEnd: nat, b: nat, bEnd: nat) {
    aEnd <= b || bEnd <= a
  }

  /** The native buffers of the instance's memory and heaps do not overlap. */
  ghost predicate Disjoint(s: State, i: nat)
    requires Translatable(s, i) && s.instances[i].mem.Some?
  {
    var m := s.instances[i].mem.value;
    && 0 < m.data && m.dataEnd < U64
    && (s.instances[i].heap.Some? ==>
          && (forall x :: x in HeapsOf(s, i) ==>
                Apart(m.data, m.dataEnd, s.heaps[x].base, s.heaps[x].base + s.heaps[x].size))
          && (forall x, y :: x in HeapsOf(s, i) && y in HeapsOf(s, i) && x != y ==>
                Apart(s.heaps[x].base, s.heaps[x].base + s.heaps[x].size, s.heaps[y].base,
                    s.heaps[y].base + s.heaps[y].size)))
  }

  /** The offset lies in the linear memory or in one of the attached heaps. */
  predicate ValidOffset(s: State, i: nat, off: nat) {
    && i < |s.instances| && s.instances[i].mem.Some?
    && (|| off < s.instances[i].mem.value.dataSize
        || (HasHeap(s, i) && Start(s.heaps[s.instances[i].heap.value], Is64(s, i)) <= off < Top(Is64(s, i))))
  }

  /** Adding an offset of the heap to the adjusted base gives the byte's address, and
      subtracting the adjusted base from that gives the offset. */
  lemma AdjustedBase(h: Heap, is64: bool, d: nat)
    requires h.base + h.size < U64 && Start(h, is64) + h.size <= U64 && d < h.size
    ensures Wrap64(Describe(h, is64).adj + (Start(h, is64) + d)) == h.base + d
    ensures Wrap64((h.base + d) - Describe(h, is64).adj) == Start(h, is64) + d
  {
    var start := Start(h, is64);
    OneWrap(h.base - start, U64);
    OneWrap(Wrap64(h.base - start) + (start + d), U64);
    OneWrap((h.base + d) - Wrap64(h.base - start), U64);
  }

  lemma LookupFinds(s: State, i: nat, off: nat, x: nat)
    requires Translatable(s, i) && HasHeap(s, i) && x in HeapsOf(s, i) && Contains(s.heaps[x], Is64(s, i), off, 1)
    ensures Lookup(s, i, off, 1) == (SetCache(s, i, Describe(s.heaps[x], Is64(s, i))), true)
  {
    FoundIs(s.heaps, s.instances[i].heap.value, Is64(s, i), off, 1, x);
  }

  /** An offset in heap `x` of the chain translates to the same distance into its buffer. */
  lemma HeapToNative(s: State, i: nat, off: nat, x: nat)
    requires Translatable(s, i) && HasHeap(s, i) && x in HeapsOf(s, i) && Contains(s.heaps[x], Is64(s, i), off, 1)
    ensures AppToNative(s, i, off).1 == s.heaps[x].base + (off - Start(s.heaps[x], Is64(s, i)))
  {
    var is64, h := Is64(s, i), s.heaps[x];
    LookupFinds(s, i, off, x);
    assert HeapOk(s.heaps, x);
    AdjustedBase(h, is64, off - Start(h, is64));
  }

  /** With disjoint buffers the walk finds the one heap that holds the address. */
  lemma NativeFound(s: State, i: nat, addr: nat, x: nat)
    requires Translatable(s, i) && HasHeap(s, i) && Disjoint(s, i)
    requires x in HeapsOf(s, i) && NativeContains(s.heaps[x], addr, 1)
    ensures FindNative(s.heaps, HeapsOf(s, i), addr, 1) == Some(x)
  {
  }

  lemma NativeToHeap(s: State, i: nat, addr: nat, x: nat)
    requires Translatable(s, i) && HasHeap(s, i) && Disjoint(s, i)
    requires x in HeapsOf(s, i) && NativeContains(s.heaps[x], addr, 1)
    ensures NativeToApp(s, i, addr).1 == Start(s.heaps[x], Is64(s, i)) + (addr - s.heaps[x].base)
  {
    var is64, h := Is64(s, i), s.heaps[x];
    NativeFound(s, i, addr, x);
    assert HeapOk(s.heaps, x);
    AdjustedBase(h, is64, addr - h.base);
    assert NativeLookup(s, i, addr, 1) == (SetCache(s, i, Describe(h, is64)), true);
  }

  /** Every heap of an attached chain lies above the linear memory. */
  lemma HeapAbove(s: State, i: nat, x: nat)
    requires Translatable(s, i) && HasHeap(s, i) && x in HeapsOf(s, i)
    ensures s.instances[i].mem.value.dataSize <= Start(s.heaps[s.instances[i].heap.value],
        Is64(s, i)) <= Start(s.heaps[x], Is64(s, i))
    ensures Start(s.heaps[x], Is64(s, i)) + s.heaps[x].size <= Top(Is64(s, i))
  {
    var c := HeapsOf(s, i);
    var k :| 0 <= k < |c| && c[k] == x;
    ChainOrder(s.heaps, s.instances[i].heap.value, k);
  }

  /** In every state of every run each attach count is the number of attached instances, and
      the linear memory of an attached instance ends below every heap it can reach. */
  lemma CountsAndRoom(run: seq<Op>, i: nat, x: nat)
    requires ValidRun(EMPTY, run) && i < |After(EMPTY, run).instances| && x < |After(EMPTY, run).heaps|
    ensures var s := After(EMPTY, run);
            && s.heaps[x].attached == Count(s.instances, x)
            && InstanceOk(s.heaps, s.instances[i])
            && (HasHeap(s, i) && x in HeapsOf(s, i) ==>
                  s.instances[i].mem.value.dataSize <= Start(s.heaps[x], Is64(s, i)))
  {
    var s := After(EMPTY, run);
    assert InstanceOk(s.heaps, s.instances[i]);
    if HasHeap(s, i) && x in HeapsOf(s, i) {
      HeapAbove(s, i, x);
    }
  }

  lemma LinearToNative(s: State, i: nat, off: nat)
    requires Translatable(s, i) && s.instances[i].mem.Some? && Disjoint(s, i) && off < s.instances[i].mem.value.dataSize
    ensures AppToNative(s, i, off).1 == s.instances[i].mem.value.data + off
  {
    var m := s.instances[i].mem.value;
    if s.instances[i].heap.Some? {
      forall x | x in HeapsOf(s, i)
        ensures !Contains(s.heaps[x], m.is64, off, 1)
      {
        HeapAbove(s, i, x);
      }
    }
  }

  lemma LinearToApp(s: State, i: nat, addr: nat)
    requires Translatable(s, i) && s.instances[i].mem.Some? && Disjoint(s, i)
        && InLinear(s.instances[i].mem.value, addr)
    ensures NativeToApp(s, i, addr).1 == addr - s.instances[i].mem.value.data
  {
    if s.instances[i].heap.Some? {
      assert forall x :: x in HeapsOf(s, i) ==> !NativeContains(s.heaps[x], addr, 1);
    }
  }

  /** `t` differs from `s` at most in the cache of instance `i`. */
  predicate SameButCache(s: State, t: State, i: nat) {
    && i < |s.instances| && i < |t.instances| && t.heaps == s.heaps
    && t.instances[i] == s.instances[i].(cache := t.instances[i].cache)
  }

  /** Every valid offset has a native address, and translating it back, whatever lookups
      have changed the cache meanwhile, gives the offset again. */
  lemma RoundTrip(s: State, t: State, i: nat, off: nat)
    requires Translatable(s, i) && Translatable(t, i) && SameButCache(s, t, i)
    requires ValidOffset(s, i, off) && Disjoint(s, i)
    ensures AppToNative(s, i, off).1 > 0
    ensures NativeToApp(t, i, AppToNative(s, i, off).1).1 == off
  {
    var m := s.instances[i].mem.value;
    assert Disjoint(t, i);
    if off < m.dataSize {
      LinearToNative(s, i, off);
      LinearToApp(t, i, AppToNative(s, i, off).1);
    } else {
      var k := Tiles(s.heaps, s.instances[i].heap.value, m.is64, off);
      HeapRoundTrip(s, t, i, off, HeapsOf(s, i)[k]);
    }
  }

  lemma HeapRoundTrip(s: State, t: State, i: nat, off: nat, x: nat)
    requires Translatable(s, i) && Translatable(t, i) && SameButCache(s, t, i) && HasHeap(s, i) && Disjoint(t, i)
    requires x in HeapsOf(s, i) && Contains(s.heaps[x], Is64(s, i), off, 1)
    ensures AppToNative(s, i, off).1 > 0
    ensures NativeToApp(t, i, AppToNative(s, i, off).1).1 == off
  {
    HeapToNative(s, i, off, x);
    assert HeapOk(s.heaps, x);
    NativeToHeap(t, i, AppToNative(s, i, off).1, x);
  }

  /** Distinct valid offsets have distinct native addresses. */
  lemma Injective(s: State, i: nat, off: nat, off': nat)
    requires Translatable(s, i) && ValidOffset(s, i, off) && ValidOffset(s, i, off') && Disjoint(s, i)
    ensures AppToNative(s, i, off).1 == AppToNative(s, i, off').1 ==> off == off'
  {
    RoundTrip(s, s, i, off);
    RoundTrip(s, s, i, off');
  }

  /** Translation to native fails exactly on the offsets that are not valid. */
  lemma NullExactly(s: State, i: nat, off: nat)
    requires Translatable(s, i) && off < U64
    requires s.instances[i].mem.Some? ==> Disjoint(s, i)
    ensures AppToNative(s, i, off).1 == 0 <==> !ValidOffset(s, i, off)
  {
    if ValidOffset(s, i, off) {
      RoundTrip(s, s, i, off);
    } else if s.instances[i].mem.Some? {
      var m := s.instances[i].mem.value;
      if s.instances[i].heap.Some? {
        forall x | x in HeapsOf(s, i)
          ensures !Contains(s.heaps[x], m.is64, off, 1)
        {
          HeapAbove(s, i, x);
        }
      }
      OneWrap(m.data + off, U64);
    }
  }

  /** Every native address inside the memory or an attached heap comes back from its offset. */
  lemma BackTrip(s: State, t: State, i: nat, addr: nat)
    requires Translatable(s, i) && Translatable(t, i) && SameButCache(s, t, i)
    requires s.instances[i].mem.Some? && Disjoint(s, i)
    requires InLinear(s.instances[i].mem.value, addr)
          || (s.instances[i].heap.Some? && exists x :: x in HeapsOf(s, i) && NativeContains(s.heaps[x], addr, 1))
    ensures ValidOffset(s, i, NativeToApp(s, i, addr).1)
    ensures AppToNative(t, i, NativeToApp(s, i, addr).1).1 == addr
  {
    var m := s.instances[i].mem.value;
    assert Disjoint(t, i);
    if InLinear(m, addr) {
      LinearBackTrip(s, t, i, addr);
    } else {
      var x :| x in HeapsOf(s, i) && NativeContains(s.heaps[x], addr, 1);
      HeapBackTrip(s, t, i, addr, x);
    }
  }

  lemma LinearBackTrip(s: State, t: State, i: nat, addr: nat)
    requires Translatable(s, i) && Translatable(t, i) && SameButCache(s, t, i)
    requires s.instances[i].mem.Some? && Disjoint(s, i) && Disjoint(t, i) && InLinear(s.instances[i].mem.value, addr)
    ensures ValidOffset(s, i, NativeToApp(s, i, addr).1)
    ensures AppToNative(t, i, NativeToApp(s, i, addr).1).1 == addr
  {
    LinearToApp(s, i, addr);
    LinearToNative(t, i, NativeToApp(s, i, addr).1);
  }

  lemma HeapBackTrip(s: State, t: State, i: nat, addr: nat, x: nat)
    requires Translatable(s, i) && Translatable(t, i) && SameButCache(s, t, i)
    requires s.instances[i].mem.Some? && Disjoint(s, i) && Disjoint(t, i) && s.instances[i].heap.Some?
    requires x in HeapsOf(s, i) && NativeContains(s.heaps[x], addr, 1)
    ensures ValidOffset(s, i, NativeToApp(s, i, addr).1)
    ensures AppToNative(t, i, NativeToApp(s, i, addr).1).1 == addr
  {
    NativeToHeap(s, i, addr, x);
    HeapAbove(s, i, x);
    HeapToNative(t, i, NativeToApp(s, i, addr).1, x);
  }

  /** An address in neither translates to 0. */
  lemma OutsideToZero(s: State, i: nat, addr: nat)
    requires Translatable(s, i)
    requires s.instances[i].mem.Some? ==> !InLinear(s.instances[i].mem.value, addr)
    requires HasHeap(s, i) ==> forall x :: x in HeapsOf(s, i) ==> !NativeContains(s.heaps[x], addr, 1)
    ensures NativeToApp(s, i, addr).1 == 0
  {
  }

  // ----- Allocation from a chain -----

  /** A chain has at most one heap that can allocate, so malloc and free agree on it. */
  lemma {:induction false} OneAllocator(heaps: seq<Heap>, root: nat, j: nat, k: nat)
    requires HeapsInv(heaps) && root < |heaps| && j < |Chain(heaps, root)| && k < |Chain(heaps, root)|
    requires heaps[Chain(heaps, root)[j]].hasHandle && heaps[Chain(heaps, root)[k]].hasHandle
    ensures j == k
    decreases Rank(heaps, root)
  {
    assert HeapOk(heaps, root);
    if heaps[root].next.Some? {
      var y := heaps[root].next.value;
      assert HeapOk(heaps, y);
      assert Handles(heaps, root) == (if heaps[root].hasHandle then 1 else 0) + Handles(heaps, y);
      if j > 0 && k > 0 {
        OneAllocator(heaps, y, j - 1, k - 1);
      } else if j > 0 || k > 0 {
        assert Chain(heaps, root) == [root] + Chain(heaps, y);
        HandleCounts(heaps, y, (if j > 0 then j else k) - 1);
      }
    }
  }

  lemma {:induction false} HandleCounts(heaps: seq<Heap>, root: nat, k: nat)
    requires Linked(heaps) && root < |heaps| && k < |Chain(heaps, root)| && heaps[Chain(heaps, root)[k]].hasHandle
    ensures Handles(heaps, root) >= 1
    decreases Rank(heaps, root)
  {
    assert HeapOk(heaps, root);
    if k > 0 {
      assert HeapOk(heaps, heaps[root].next.value);
      HandleCounts(heaps, heaps[root].next.value, k - 1);
    }
  }

  /** The offset malloc returns for a block at `native`: the conditional of the source adds
      the distance into the heap only for 32-bit memories. */
  function MallocOffset(h: Heap, is64: bool, native: nat): nat
    requires h.base <= native
  {
    if is64 then h.start64 else h.start32 + (native - h.base)
  }

  /** The address free passes to the allocator, if the offset passes its check. */
  function FreeAddr(h: Heap, is64: bool, ptr: nat): Option<nat> {
    if is64 then
      if ptr < h.start64 then None else Some(h.base + (ptr - h.start64))
    else if ptr < h.start32 || ptr > U32 - 1 then None
    else Some(h.base + (ptr - h.start32))
  }

  /** Freeing what malloc returned frees the block malloc allocated, and the offset
      translates to it, exactly for 32-bit memories and for a block at the heap's base. */
  lemma FreeUndoesMalloc(s: State, i: nat, x: nat, native: nat)
    requires Translatable(s, i) && HasHeap(s, i) && x in HeapsOf(s, i) && NativeContains(s.heaps[x], native, 1)
    ensures var h, is64 := s.heaps[x], Is64(s, i);
            var off := MallocOffset(h, is64, native);
            && (FreeAddr(h, is64, off) == Some(native) <==> !is64 || native == h.base)
            && (AppToNative(s, i, off).1 == native <==> !is64 || native == h.base)
  {
    var h, is64 := s.heaps[x], Is64(s, i);
    HeapAbove(s, i, x);
    assert HeapOk(s.heaps, x);
    MallocThenFree(h, is64, native);
    HeapToNative(s, i, MallocOffset(h, is64, native), x);
  }

  /** Free accepts every offset from the heap's start on, and passes an address outside the
      heap's buffer to the allocator exactly if another heap follows and the offset is in it. */
  lemma FreeInside(heaps: seq<Heap>, x: nat, is64: bool, ptr: nat)
    requires Linked(heaps) && x < |heaps| && ptr < Top(is64)
    ensures var h, a := heaps[x], FreeAddr(heaps[x], is64, ptr);
            && (a.Some? <==> exists y :: y in Chain(heaps, x) && Contains(heaps[y], is64, ptr, 1))
            && (a.Some? ==> (NativeContains(h, a.value, 1) <==> Contains(h, is64, ptr, 1)))
  {
    assert HeapOk(heaps, x);
    var c := Chain(heaps, x);
    if ptr >= Start(heaps[x], is64) {
      var k := Tiles(heaps, x, is64, ptr);
      assert c[k] in c;
    } else {
      AboveStart(heaps, x, is64, ptr + 1);
    }
  }

  lemma MallocThenFree(h: Heap, is64: bool, native: nat)
    requires h.base <= native < h.base + h.size && h.start32 + h.size <= U32
    ensures FreeAddr(h, is64, MallocOffset(h, is64, native)) == Some(native) <==> !is64 || native == h.base
  {
  }
}
