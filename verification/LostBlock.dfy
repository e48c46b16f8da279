/** A run after which freeing what malloc returned for a 64-bit memory misses the block. */
module LostBlock {
  import opened Bits
  import opened LinearMemory
  import opened SharedHeap
  import opened HeapRuntime
  import opened AddressTranslation
  import opened AttachOverflow

  /** A heap of 64 KB with its own allocator. */
  function OwnHeap(attached: nat): Heap {
    Heap(0x1_0000, 0x1000_0000, true, 0xFFFF_0000, 0xFFFF_FFFF_FFFF_0000, None, attached)
  }

  /** One page of a 64-bit memory. */
  const WIDE_PAGE: Memory := ONE_PAGE.(is64 := true)

  lemma HeapCreated(size: u32, osPage: nat)
    requires size == 0x1_0000 && osPage == 4096
    ensures NewHeap(size, None, true, Some(0x1000_0000), osPage) == Some(OwnHeap(0))
  {
    OneWrap(size + osPage - 1, U32);
  }

  lemma OwnHeapReady() returns (run: seq<Op>)
    ensures ValidRun(EMPTY, run) && Inv(After(EMPTY, run))
    ensures After(EMPTY, run) == State([OwnHeap(0)], [Instance(Some(WIDE_PAGE), None, INITIAL_CACHE)])
  {
    var a, b := Create(0x1_0000, None, true, Some(0x1000_0000), 4096), Instantiate(Some(WIDE_PAGE));
    HeapCreated(0x1_0000, 4096);
    RunAppend(EMPTY, [], a);
    RunAppend(EMPTY, [] + [a], b);
    run := [] + [a] + [b];
  }

  lemma OwnHeapAttached() returns (run: seq<Op>)
    ensures ValidRun(EMPTY, run) && Inv(After(EMPTY, run))
    ensures var s := After(EMPTY, run);
            && s.heaps == [OwnHeap(1)] && |s.instances| == 1
            && s.instances[0].mem == Some(WIDE_PAGE) && s.instances[0].heap == Some(0)
  {
    var before := OwnHeapReady();
    var s := After(EMPTY, before);
    assert Root(s.heaps, 0) && Count(s.instances, 0) == 0;
    RunAppend(EMPTY, before, AttachHeap(0, 0));
    OneWrap(1, U8);
    run := before + [AttachHeap(0, 0)];
  }

  /** Whatever block the allocator hands out behind the base of such a heap, `distance` bytes
      into it: the offset malloc returns translates to another address, and free passes that
      address to the allocator. */
  lemma BlockLost(distance: nat) returns (run: seq<Op>)
    requires 0 < distance < 0x1_0000
    ensures ValidRun(EMPTY, run)
    ensures var s := After(EMPTY, run);
            && Translatable(s, 0) && HasHeap(s, 0) && 0 in HeapsOf(s, 0) && s.heaps[0].hasHandle && Is64(s, 0)
            && var h := s.heaps[0];
               var native := h.base + distance;
               var off := MallocOffset(h, true, native);
               && NativeContains(h, native, 1)
               && FreeAddr(h, true, off) == Some(h.base) && AppToNative(s, 0, off).1 != native
  {
    run := OwnHeapAttached();
    var s := After(EMPTY, run);
    assert InstanceOk(s.heaps, s.instances[0]);
    assert HeapOk(s.heaps, 0) && Chain(s.heaps, 0) == [0];
    FreeUndoesMalloc(s, 0, 0, s.heaps[0].base + distance);
  }
}
