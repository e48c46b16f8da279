/** Module instances with shared heaps attached: the attach count, the last-used cache,
    address lookup and translation, and growth of the linear memory below the heaps. */
module HeapRuntime {
  import opened Bits
  import opened LinearMemory
  import opened SharedHeap

  // ----- Operations on the whole state -----

  predicate Contains(h: Heap, is64: bool, off: nat, n: nat) {
    Start(h, is64) <= off && off + n <= Start(h, is64) + h.size
  }

  /** A range of zero bytes is looked up as one byte. */
  function Bytes(bytes: u32): nat {
    if bytes == 0 then 1 else bytes
  }

  /** The first heap of `c` whose app range holds the `n` bytes at `off`. */
  function Find(heaps: seq<Heap>, c: seq<nat>, is64: bool, off: nat, n: nat): (r: Option<nat>)
    requires forall k :: 0 <= k < |c| ==> c[k] < |heaps|
    ensures r.Some? <==> exists k :: 0 <= k < |c| && Contains(heaps[c[k]], is64, off, n)
    ensures r.Some? ==> r.value in c && Contains(heaps[r.value], is64, off, n)
  {
    if c == [] then None
    else if Contains(heaps[c[0]], is64, off, n) then
      assert Contains(heaps[c[0]], is64, off, n);
      Some(c[0])
    else
      assert forall k :: 0 <= k < |c| && Contains(heaps[c[k]], is64, off, n) ==> k > 0 && c[1..][k - 1] == c[k];
      assert forall k :: 0 <= k < |c| - 1 ==> c[1..][k] == c[k + 1];
      Find(heaps, c[1..], is64, off, n)
  }

  predicate NativeContains(h: Heap, addr: nat, n: nat) {
    h.base <= addr && n > 0 && addr + n <= h.base + h.size
  }

  function FindNative(heaps: seq<Heap>, c: seq<nat>, addr: nat, n: nat): (r: Option<nat>)
    requires forall k :: 0 <= k < |c| ==> c[k] < |heaps|
    ensures r.Some? <==> exists k :: 0 <= k < |c| && NativeContains(heaps[c[k]], addr, n)
    ensures r.Some? ==> r.value in c && NativeContains(heaps[r.value], addr, n)
  {
    if c == [] then None
    else if NativeContains(heaps[c[0]], addr, n) then
      assert NativeContains(heaps[c[0]], addr, n);
      Some(c[0])
    else
      assert forall k :: 0 <= k < |c| && NativeContains(heaps[c[k]], addr, n) ==> k > 0 && c[1..][k - 1] == c[k];
      assert forall k :: 0 <= k < |c| - 1 ==> c[1..][k] == c[k + 1];
      FindNative(heaps, c[1..], addr, n)
  }

  function SetCache(s: State, i: nat, c: Cache): State
    requires i < |s.instances|
  {
    s.(instances := s.instances[i := s.instances[i].(cache := c)])
  }

  predicate HasHeap(s: State, i: nat) {
    i < |s.instances| && s.instances[i].heap.Some? && s.instances[i].heap.value < |s.heaps| && s.instances[i].mem.Some?
  }

  function Is64(s: State, i: nat): bool
    requires i < |s.instances| && s.instances[i].mem.Some?
  {
    s.instances[i].mem.value.is64
  }

  /** The heaps instance `i` can reach, root first. */
  ghost function HeapsOf(s: State, i: nat): seq<nat>
    requires Linked(s.heaps) && HasHeap(s, i)
  {
    Chain(s.heaps, s.instances[i].heap.value)
  }

  /** App lookup without the cache: walk the chain, remember the heap that is found. */
  ghost function Lookup(s: State, i: nat, off: nat, bytes: u32): (State, bool)
    requires Linked(s.heaps) && i < |s.instances| && (s.instances[i].heap.Some? ==> HasHeap(s, i))
  {
    if s.instances[i].heap.None? then (s, false)
    else
      match Find(s.heaps, HeapsOf(s, i), Is64(s, i), off, Bytes(bytes))
      case None => (s, false)
      case Some(x) => (SetCache(s, i, Describe(s.heaps[x], Is64(s, i))), true)
  }

  ghost function NativeLookup(s: State, i: nat, addr: nat, bytes: u32): (State, bool)
    requires Linked(s.heaps) && i < |s.instances| && (s.instances[i].heap.Some? ==> HasHeap(s, i))
  {
    if s.instances[i].heap.None? then (s, false)
    else
      match FindNative(s.heaps, HeapsOf(s, i), addr, bytes)
      case None => (s, false)
      case Some(x) => (SetCache(s, i, Describe(s.heaps[x], Is64(s, i))), true)
  }

  predicate CanAttach(s: State, i: nat, x: nat)
    requires i < |s.instances| && x < |s.heaps|
  {
    var inst := s.instances[i];
    inst.mem.Some? && inst.mem.value.dataSize <= Start(s.heaps[x], inst.mem.value.is64) && inst.heap.None?
  }

  function Attach(s: State, i: nat, x: nat): (State, bool)
    requires i < |s.instances| && x < |s.heaps|
  {
    if !CanAttach(s, i, x) then (s, false)
    else (State(s.heaps[x := s.heaps[x].(attached := Wrap8(s.heaps[x].attached + 1))],
                s.instances[i := Attached(s.instances[i], x, s.heaps[x])]), true)
  }

  function Attached(inst: Instance, x: nat, h: Heap): Instance
    requires inst.mem.Some?
  {
    inst.(heap := Some(x), cache := Describe(h, inst.mem.value.is64))
  }

  function Detach(s: State, i: nat): State
    requires i < |s.instances| && (s.instances[i].heap.Some? ==> s.instances[i].heap.value < |s.heaps|)
  {
    var inst := s.instances[i];
    var detached := s.instances[i := inst.(heap := None, cache := DETACHED_CACHE)];
    match inst.heap
    case None => s.(instances := detached)
    case Some(x) => State(s.heaps[x := s.heaps[x].(attached := Wrap8(s.heaps[x].attached - 1))], detached)
  }

  /** Growth of the default memory through the module entry point, which knows the attached heap. */
  function Grow(s: State, i: nat, inc: u32, platform: Platform): (State, bool)
    requires i < |s.instances| && (s.instances[i].heap.Some? ==> s.instances[i].heap.value < |s.heaps|)
  {
    var inst := s.instances[i];
    match inst.mem
    case None => (s, false)
    case Some(m) =>
      var limit := if inst.heap.None? then None else Some(Start(s.heaps[inst.heap.value], m.is64));
      var (r, ok) := Enlarge(m, Growth(inc, platform, limit));
      (s.(instances := s.instances[i := inst.(mem := Some(r))]), ok)
  }

  // ----- The invariant -----

  /** How many instances have heap `x` attached. */
  function Count(instances: seq<Instance>, x: nat): nat {
    if instances == [] then 0
    else (if instances[0].heap == Some(x) then 1 else 0) + Count(instances[1..], x)
  }

  /** The cache describes a heap of the attached chain. */
  ghost predicate CacheOk(heaps: seq<Heap>, root: nat, is64: bool, cache: Cache)
    requires Linked(heaps) && root < |heaps|
  {
    exists x :: x in Chain(heaps, root) && cache == Describe(heaps[x], is64)
  }

  ghost predicate InstanceOk(heaps: seq<Heap>, inst: Instance)
    requires Linked(heaps)
  {
    && (inst.mem.Some? ==> MemoryOk(inst.mem.value))
    && (inst.heap.Some? ==>
          && inst.heap.value < |heaps| && Root(heaps, inst.heap.value) && inst.mem.Some?
          && inst.mem.value.dataSize <= Start(heaps[inst.heap.value], inst.mem.value.is64)
          && CacheOk(heaps, inst.heap.value, inst.mem.value.is64, inst.cache))
  }

  ghost predicate Inv(s: State) {
    && HeapsInv(s.heaps)
    && (forall i :: 0 <= i < |s.instances| ==> InstanceOk(s.heaps, s.instances[i]))
    && (forall x: nat :: x < |s.heaps| ==> s.heaps[x].attached == Count(s.instances, x) < U8)
  }

  lemma {:induction false} CountUpdate(instances: seq<Instance>, i: nat, inst: Instance, x: nat)
    requires i < |instances|
    ensures Count(instances[i := inst], x)
         == Count(instances, x) - (if instances[i].heap == Some(x) then 1 else 0)
             + (if inst.heap == Some(x) then 1 else 0)
    decreases |instances|
  {
    if i == 0 {
      assert instances[i := inst][1..] == instances[1..];
    } else {
      CountUpdate(instances[1..], i - 1, inst, x);
      assert instances[i := inst][1..] == instances[1..][i - 1 := inst];
    }
  }

  lemma {:induction false} CountAppend(instances: seq<Instance>, inst: Instance, x: nat)
    ensures Count(instances + [inst], x) == Count(instances, x) + (if inst.heap == Some(x) then 1 else 0)
    decreases |instances|
  {
    if instances == [] {
      assert instances + [inst] == [inst];
    } else {
      CountAppend(instances[1..], inst, x);
      assert (instances + [inst])[1..] == instances[1..] + [inst];
    }
  }

  lemma {:induction false} CountsOne(instances: seq<Instance>, i: nat, x: nat)
    requires i < |instances| && instances[i].heap == Some(x)
    ensures Count(instances, x) >= 1
    decreases |instances|
  {
    if i > 0 { CountsOne(instances[1..], i - 1, x); }
  }

  /** An attached heap shows a non-zero count, so the guards see it. */
  lemma AttachedShows(s: State, i: nat)
    requires Inv(s) && i < |s.instances| && s.instances[i].heap.Some?
    ensures s.heaps[s.instances[i].heap.value].attached > 0
  {
    CountsOne(s.instances, i, s.instances[i].heap.value);
  }

  lemma CacheFrame(heaps: seq<Heap>, heaps': seq<Heap>, root: nat, is64: bool, cache: Cache)
    requires Linked(heaps) && Linked(heaps') && root < |heaps| <= |heaps'|
    requires Chain(heaps', root) == Chain(heaps, root) && CacheOk(heaps, root, is64, cache)
    requires forall x :: x in Chain(heaps, root) ==> heaps'[x] == heaps[x].(attached := heaps'[x].attached)
    ensures CacheOk(heaps', root, is64, cache)
    ensures Start(heaps'[root], is64) == Start(heaps[root], is64)
  {
    ChainFacts(heaps, root);
    DescribeFrame(heaps, heaps', Chain(heaps, root), is64, cache);
  }

  lemma DescribeFrame(heaps: seq<Heap>, heaps': seq<Heap>, c: seq<nat>, is64: bool, cache: Cache)
    requires |c| > 0 && forall k :: 0 <= k < |c| ==> c[k] < |heaps| <= |heaps'|
    requires forall x :: x in c ==> heaps'[x] == heaps[x].(attached := heaps'[x].attached)
    requires exists x :: x in c && cache == Describe(heaps[x], is64)
    ensures exists x :: x in c && cache == Describe(heaps'[x], is64)
    ensures Start(heaps'[c[0]], is64) == Start(heaps[c[0]], is64)
  {
    assert c[0] in c;
  }

  /** An instance is untouched by changes that leave its root and the heaps of its chain alone. */
  lemma InstanceFrame(heaps: seq<Heap>, heaps': seq<Heap>, inst: Instance)
    requires Linked(heaps) && Linked(heaps') && |heaps| <= |heaps'| && InstanceOk(heaps, inst)
    requires inst.heap.Some? ==>
               && Root(heaps', inst.heap.value) && Chain(heaps', inst.heap.value) == Chain(heaps, inst.heap.value)
               && (forall x :: x in Chain(heaps, inst.heap.value) ==>
                     heaps'[x] == heaps[x].(attached := heaps'[x].attached))
    ensures InstanceOk(heaps', inst)
  {
    if inst.heap.Some? {
      CacheFrame(heaps, heaps', inst.heap.value, inst.mem.value.is64, inst.cache);
    }
  }

  // ----- What every operation keeps -----

  lemma CreateStep(s: State, h: Heap)
    requires Inv(s)
    requires 0 < h.size <= APP_HEAP_SIZE_MAX && 0 < h.base && h.base + h.size < U64 && h.attached == 0
    requires h.next.None? && h.start64 == U64 - h.size && h.start32 == U32 - h.size
    ensures Inv(s.(heaps := s.heaps + [h]))
  {
    var heaps' := s.heaps + [h];
    CreateKeeps(s.heaps, h);
    forall i | 0 <= i < |s.instances|
      ensures InstanceOk(heaps', s.instances[i])
    {
      InstanceFrame(s.heaps, heaps', s.instances[i]);
    }
    NoneAttached(s.heaps, s.instances, |s.heaps|);
  }

  lemma {:induction false} NoneAttached(heaps: seq<Heap>, instances: seq<Instance>, x: nat)
    requires Linked(heaps) && x >= |heaps| && forall i :: 0 <= i < |instances| ==> InstanceOk(heaps, instances[i])
    ensures Count(instances, x) == 0
    decreases |instances|
  {
    if instances != [] {
      assert InstanceOk(heaps, instances[0]);
      NoneAttached(heaps, instances[1..], x);
    }
  }

  lemma ChainStep(s: State, head: nat, body: nat)
    requires Inv(s) && head < |s.heaps| && body < |s.heaps| && CanChain(s.heaps, head, body)
    requires head != body && s.heaps[head].size <= s.heaps[body].start32
    ensures Inv(s.(heaps := Chained(s.heaps, head, body)))
  {
    var heaps' := Chained(s.heaps, head, body);
    ChainKeeps(s.heaps, head, body);
    forall i | 0 <= i < |s.instances|
      ensures InstanceOk(heaps', s.instances[i])
    {
      if s.instances[i].heap.Some? {
        AttachedShows(s, i);
        RootNotInside(s.heaps, s.instances[i].heap.value, head);
      }
      InstanceFrame(s.heaps, heaps', s.instances[i]);
    }
  }

  lemma UnchainInstance(heaps: seq<Heap>, head: nat, entire: bool, inst: Instance)
    requires HeapsInv(heaps) && head < |heaps| && Root(heaps, head) && InstanceOk(heaps, inst)
        && inst.heap != Some(head)
    ensures Linked(Unchained(heaps, head, entire)) && InstanceOk(Unchained(heaps, head, entire), inst)
  {
    UnchainKeeps(heaps, head, entire);
    if inst.heap.Some? {
      DisjointRoots(heaps, head, inst.heap.value);
    }
    InstanceFrame(heaps, Unchained(heaps, head, entire), inst);
  }

  lemma UnchainStep(s: State, head: nat, entire: bool)
    requires Inv(s) && head < |s.heaps| && CanUnchain(s.heaps, head) && Root(s.heaps, head)
    ensures Inv(s.(heaps := Unchained(s.heaps, head, entire)))
  {
    var heaps' := Unchained(s.heaps, head, entire);
    UnchainKeeps(s.heaps, head, entire);
    forall i | 0 <= i < |s.instances|
      ensures InstanceOk(heaps', s.instances[i])
    {
      if s.instances[i].heap.Some? {
        AttachedShows(s, i);
      }
      UnchainInstance(s.heaps, head, entire, s.instances[i]);
    }
  }

  /** Chains of different roots share no heap. */
  lemma DisjointRoots(heaps: seq<Heap>, a: nat, b: nat)
    requires Linked(heaps) && a < |heaps| && b < |heaps| && Root(heaps, a) && Root(heaps, b) && a != b
    ensures forall x :: x in Chain(heaps, b) ==> x !in Chain(heaps, a)
  {
    var r := set x | x in Chain(heaps, a);
    RootNotInside(heaps, a, b);
    var c := Chain(heaps, a);
    forall y: nat | y < |heaps| && y !in r && heaps[y].next.Some?
      ensures heaps[y].next.value !in r
    {
      assert c[..|c|] == c;
      ChainClosed(heaps, a, |c|, y);
    }
    ChainFrame(heaps, heaps, r, b);
  }

  /** Changing only a counter changes no chain. */
  lemma CounterFrame(heaps: seq<Heap>, x: nat, n: nat)
    requires HeapsInv(heaps) && x < |heaps| && n < U8
    ensures var heaps' := heaps[x := heaps[x].(attached := n)];
            && HeapsInv(heaps')
            && (forall y: nat :: y < |heaps| ==> Chain(heaps', y) == Chain(heaps, y))
            && (forall y: nat :: Root(heaps', y) <==> Root(heaps, y))
  {
    var heaps' := heaps[x := heaps[x].(attached := n)];
    assert forall z: nat :: z < |heaps| ==> heaps'[z].next == heaps[z].next;
    forall y: nat | y < |heaps'|
      ensures HeapOk(heaps', y)
    {
      assert HeapOk(heaps, y);
    }
    forall y: nat | y < |heaps|
      ensures Chain(heaps', y) == Chain(heaps, y) && Handles(heaps', y) == Handles(heaps, y)
    {
      ChainFrame(heaps, heaps', {}, y);
    }
  }

  /** Replacing one instance and setting one counter to the number of attachments it then has. */
  lemma CounterStep(s: State, x: nat, n: nat, i: nat, inst: Instance)
    requires Inv(s) && x < |s.heaps| && n < U8 && i < |s.instances|
    requires Linked(s.heaps[x := s.heaps[x].(attached := n)]) ==>
               InstanceOk(s.heaps[x := s.heaps[x].(attached := n)], inst)
    requires forall y: nat :: y < |s.heaps| ==>
               Count(s.instances[i := inst], y) == if y == x then n else Count(s.instances, y)
    ensures Inv(State(s.heaps[x := s.heaps[x].(attached := n)], s.instances[i := inst]))
  {
    var heaps', instances' := s.heaps[x := s.heaps[x].(attached := n)], s.instances[i := inst];
    CounterFrame(s.heaps, x, n);
    forall j | 0 <= j < |instances'|
      ensures InstanceOk(heaps', instances'[j])
    {
      if j != i {
        InstanceFrame(s.heaps, heaps', s.instances[j]);
      }
    }
  }

  lemma AttachCounts(s: State, i: nat, x: nat, y: nat)
    requires Inv(s) && i < |s.instances| && x < |s.heaps| && CanAttach(s, i, x)
    ensures Count(Attach(s, i, x).0.instances, y) == Count(s.instances, y) + (if y == x then 1 else 0)
  {
    CountUpdate(s.instances, i, Attach(s, i, x).0.instances[i], y);
  }

  lemma AttachedOk(heaps: seq<Heap>, x: nat, n: nat, inst: Instance)
    requires HeapsInv(heaps) && x < |heaps| && n < U8 && Root(heaps, x)
    requires inst.mem.Some? && MemoryOk(inst.mem.value)
        && inst.mem.value.dataSize <= Start(heaps[x], inst.mem.value.is64)
    ensures var heaps' := heaps[x := heaps[x].(attached := n)];
            Linked(heaps') && InstanceOk(heaps', Attached(inst, x, heaps[x]))
  {
    var heaps' := heaps[x := heaps[x].(attached := n)];
    CounterFrame(heaps, x, n);
    ChainFacts(heaps', x);
    assert Chain(heaps', x)[0] == x;
    assert x in Chain(heaps', x) && Describe(heaps[x], inst.mem.value.is64) == Describe(heaps'[x], inst.mem.value.is64);
  }

  lemma AttachCounted(s: State, i: nat, x: nat, n: nat, inst': Instance)
    requires Inv(s) && i < |s.instances| && x < |s.heaps| && n == s.heaps[x].attached + 1 < U8
    requires s.instances[i].heap.None? && inst'.heap == Some(x)
    requires Linked(s.heaps[x := s.heaps[x].(attached := n)])
    requires InstanceOk(s.heaps[x := s.heaps[x].(attached := n)], inst')
    ensures Inv(State(s.heaps[x := s.heaps[x].(attached := n)], s.instances[i := inst']))
  {
    forall y: nat | y < |s.heaps|
      ensures Count(s.instances[i := inst'], y) == if y == x then n else Count(s.instances, y)
    {
      CountUpdate(s.instances, i, inst', y);
    }
    CounterStep(s, x, n, i, inst');
  }

  lemma AttachStep(s: State, i: nat, x: nat)
    requires Inv(s) && i < |s.instances| && x < |s.heaps| && Root(s.heaps, x) && CanAttach(s, i, x)
    requires Count(s.instances, x) < U8 - 1
    ensures Inv(Attach(s, i, x).0)
  {
    var inst := s.instances[i];
    assert InstanceOk(s.heaps, inst);
    var n := s.heaps[x].attached + 1;
    AttachedOk(s.heaps, x, n, inst);
    AttachCounted(s, i, x, n, Attached(inst, x, s.heaps[x]));
    AttachIs(s, i, x, n);
  }

  /** The state after an attachment that does not wrap the count. */
  lemma AttachIs(s: State, i: nat, x: nat, n: nat)
    requires i < |s.instances| && x < |s.heaps| && CanAttach(s, i, x) && n == s.heaps[x].attached + 1 < U8
    ensures Attach(s, i, x).0
         == State(s.heaps[x := s.heaps[x].(attached := n)], s.instances[i := Attached(s.instances[i], x, s.heaps[x])])
  {
    OneWrap(n, U8);
  }

  /** Attaching a root keeps everything exactly as long as the 8-bit count does not wrap; at
      the 256th attachment it does, and an attached heap counts as unattached. */
  lemma AttachExact(s: State, i: nat, x: nat)
    requires Inv(s) && i < |s.instances| && x < |s.heaps| && Root(s.heaps, x) && CanAttach(s, i, x)
    ensures Inv(Attach(s, i, x).0) <==> Count(s.instances, x) < U8 - 1
    ensures Count(s.instances, x) == U8 - 1 ==>
              Attach(s, i, x).0.heaps[x].attached == 0 && Count(Attach(s, i, x).0.instances, x) == U8
  {
    AttachCounts(s, i, x, x);
    if Count(s.instances, x) < U8 - 1 {
      AttachStep(s, i, x);
    }
  }

  lemma DetachStep(s: State, i: nat)
    requires Inv(s) && i < |s.instances|
    ensures Inv(Detach(s, i)) && Detach(s, i).instances[i].heap.None?
  {
    var inst := s.instances[i];
    var inst' := inst.(heap := None, cache := DETACHED_CACHE);
    assert InstanceOk(s.heaps, inst);
    if inst.heap.Some? {
      AttachedShows(s, i);
      DetachCounted(s, i, inst.heap.value, inst');
    } else {
      InstanceStep(s, i, inst');
    }
  }

  lemma DetachCounted(s: State, i: nat, x: nat, inst': Instance)
    requires Inv(s) && i < |s.instances| && x < |s.heaps| && s.instances[i].heap == Some(x) && s.heaps[x].attached > 0
    requires inst'.heap.None? && inst'.mem == s.instances[i].mem
    ensures Inv(State(s.heaps[x := s.heaps[x].(attached := Wrap8(s.heaps[x].attached - 1))], s.instances[i := inst']))
  {
    var n := s.heaps[x].attached - 1;
    forall y: nat | y < |s.heaps|
      ensures Count(s.instances[i := inst'], y) == if y == x then n else Count(s.instances, y)
    {
      CountUpdate(s.instances, i, inst', y);
    }
    assert InstanceOk(s.heaps, s.instances[i]);
    CounterStep(s, x, n, i, inst');
  }

  /** Replacing an instance by one with the same heap and an acceptable cache and memory. */
  lemma InstanceStep(s: State, i: nat, inst: Instance)
    requires Inv(s) && i < |s.instances| && inst.heap == s.instances[i].heap && InstanceOk(s.heaps, inst)
    ensures Inv(s.(instances := s.instances[i := inst]))
  {
    forall x: nat | x < |s.heaps|
      ensures Count(s.instances[i := inst], x) == Count(s.instances, x)
    {
      CountUpdate(s.instances, i, inst, x);
    }
  }

  lemma LookupStep(s: State, i: nat, off: nat, addr: nat, bytes: u32)
    requires Inv(s) && i < |s.instances|
    ensures Inv(Lookup(s, i, off, bytes).0) && Inv(NativeLookup(s, i, addr, bytes).0)
  {
    var inst := s.instances[i];
    assert InstanceOk(s.heaps, inst);
    if inst.heap.Some? {
      var is64 := inst.mem.value.is64;
      forall x | x in HeapsOf(s, i)
        ensures Inv(SetCache(s, i, Describe(s.heaps[x], is64)))
      {
        InstanceStep(s, i, inst.(cache := Describe(s.heaps[x], is64)));
      }
    }
  }

  lemma GrowStep(s: State, i: nat, inc: u32, platform: Platform)
    requires Inv(s) && i < |s.instances|
    ensures Inv(Grow(s, i, inc, platform).0)
  {
    var inst := s.instances[i];
    assert InstanceOk(s.heaps, inst);
    if inst.mem.Some? {
      var m := inst.mem.value;
      var limit := if inst.heap.None? then None else Some(Start(s.heaps[inst.heap.value], m.is64));
      EnlargeKeeps(m, Growth(inc, platform, limit));
      InstanceStep(s, i, inst.(mem := Some(Enlarge(m, Growth(inc, platform, limit)).0)));
    }
  }

  lemma InstantiateStep(s: State, mem: Option<Memory>)
    requires Inv(s) && (mem.Some? ==> MemoryOk(mem.value))
    ensures Inv(s.(instances := s.instances + [Instance(mem, None, INITIAL_CACHE)]))
  {
    forall x: nat | x < |s.heaps|
      ensures Count(s.instances + [Instance(mem, None, INITIAL_CACHE)], x) == Count(s.instances, x)
    {
      CountAppend(s.instances, Instance(mem, None, INITIAL_CACHE), x);
    }
  }

  // ----- Runs -----

  datatype Op =
    | Create(size: u32, preAllocated: Option<nat>, structOk: bool, mapped: Option<nat>, osPage: nat)
    | Instantiate(mem: Option<Memory>)
    | ChainHeaps(head: nat, body: nat)
    | UnchainHeaps(head: nat, entire: bool)
    | AttachHeap(i: nat, x: nat)
    | DetachHeap(i: nat)
    | FindApp(i: nat, off: nat, bytes: u32)
    | FindNativeAddr(i: nat, addr: nat, bytes: u32)
    | GrowMemory(i: nat, inc: u32, platform: Platform)

  /** What the code leaves to its callers: heaps that are chained differ and together fit in
      32 bits, only roots are attached or unchained, at most 255 instances share a heap, and
      buffers lie inside the address space. */
  ghost predicate CallerOk(s: State, op: Op)
    requires Inv(s)
  {
    match op
    case Create(size, pre, structOk, mapped, osPage) =>
      osPage > 0 && var h := NewHeap(size, pre, structOk, mapped, osPage);
      h.Some? ==> 0 < h.value.base && h.value.base + h.value.size < U64
    case Instantiate(mem) => mem.Some? ==> MemoryOk(mem.value)
    case ChainHeaps(head, body) =>
      head < |s.heaps| && body < |s.heaps| && head != body && s.heaps[head].size <= s.heaps[body].start32
    case UnchainHeaps(head, entire) => head < |s.heaps| && Root(s.heaps, head)
    case AttachHeap(i, x) =>
      i < |s.instances| && x < |s.heaps| && Root(s.heaps, x) && Count(s.instances, x) < U8 - 1
    case DetachHeap(i) => i < |s.instances|
    case FindApp(i, _, _) => i < |s.instances|
    case FindNativeAddr(i, _, _) => i < |s.instances|
    case GrowMemory(i, _, _) => i < |s.instances|
  }

  ghost function Do(s: State, op: Op): State
    requires Inv(s) && CallerOk(s, op)
  {
    match op
    case Create(size, pre, structOk, mapped, osPage) =>
      (match NewHeap(size, pre, structOk, mapped, osPage)
       case None => s
       case Some(h) => s.(heaps := s.heaps + [h]))
    case Instantiate(mem) => s.(instances := s.instances + [Instance(mem, None, INITIAL_CACHE)])
    case ChainHeaps(head, body) =>
      if CanChain(s.heaps, head, body) then s.(heaps := Chained(s.heaps, head, body)) else s
    case UnchainHeaps(head, entire) =>
      if CanUnchain(s.heaps, head) then s.(heaps := Unchained(s.heaps, head, entire)) else s
    case AttachHeap(i, x) => Attach(s, i, x).0
    case DetachHeap(i) => assert InstanceOk(s.heaps, s.instances[i]); Detach(s, i)
    case FindApp(i, off, bytes) => assert InstanceOk(s.heaps, s.instances[i]); Lookup(s, i, off, bytes).0
    case FindNativeAddr(i, addr, bytes) => assert InstanceOk(s.heaps, s.instances[i]); NativeLookup(s, i, addr, bytes).0
    case GrowMemory(i, inc, platform) => assert InstanceOk(s.heaps, s.instances[i]); Grow(s, i, inc, platform).0
  }

  lemma StepKeepsInv(s: State, op: Op)
    requires Inv(s) && CallerOk(s, op)
    ensures Inv(Do(s, op))
  {
    match op
    case Create(size, pre, structOk, mapped, osPage) =>
      var h := NewHeap(size, pre, structOk, mapped, osPage);
      if h.Some? { CreateStep(s, h.value); }
    case Instantiate(mem) => InstantiateStep(s, mem);
    case ChainHeaps(head, body) =>
      if CanChain(s.heaps, head, body) { ChainStep(s, head, body); }
    case UnchainHeaps(head, entire) =>
      if CanUnchain(s.heaps, head) { UnchainStep(s, head, entire); }
    case AttachHeap(i, x) =>
      if CanAttach(s, i, x) { AttachStep(s, i, x); }
    case DetachHeap(i) => DetachStep(s, i);
    case FindApp(i, off, bytes) => LookupStep(s, i, off, 0, bytes);
    case FindNativeAddr(i, addr, bytes) => LookupStep(s, i, 0, addr, bytes);
    case GrowMemory(i, inc, platform) => GrowStep(s, i, inc, platform);
  }

  /** Every operation's caller keeps its part. */
  ghost predicate ValidRun(s: State, run: seq<Op>)
    requires Inv(s)
    decreases |run|
  {
    run == [] || (CallerOk(s, run[0]) && (StepKeepsInv(s, run[0]); ValidRun(Do(s, run[0]), run[1..])))
  }

  ghost function After(s: State, run: seq<Op>): (r: State)
    requires Inv(s) && ValidRun(s, run)
    ensures Inv(r)
    decreases |run|
  {
    if run == [] then s else StepKeepsInv(s, run[0]); After(Do(s, run[0]), run[1..])
  }

  const EMPTY := State([], [])

  // ----- What holds in every reachable state -----

  /** Each app offset from the start of a chain up to the top lies in exactly one of its heaps. */
  lemma {:induction false} Tiles(heaps: seq<Heap>, root: nat, is64: bool, off: nat) returns (k: nat)
    requires Linked(heaps) && root < |heaps| && Start(heaps[root], is64) <= off < Top(is64)
    ensures var c := Chain(heaps, root);
            k < |c| && Contains(heaps[c[k]], is64, off, 1)
            && forall j :: 0 <= j < |c| && Contains(heaps[c[j]], is64, off, 1) ==> j == k
    decreases Rank(heaps, root)
  {
    assert HeapOk(heaps, root);
    ChainFacts(heaps, root);
    var c := Chain(heaps, root);
    if off < Start(heaps[root], is64) + heaps[root].size {
      k := 0;
    } else {
      var y := heaps[root].next.value;
      assert HeapOk(heaps, y);
      var k' := Tiles(heaps, y, is64, off);
      k := k' + 1;
      assert c == [root] + Chain(heaps, y);
    }
    forall j | 0 <= j < |c| && Contains(heaps[c[j]], is64, off, 1)
      ensures j == k
    {
      ContainsOnce(heaps, root, is64, off, 1, j, k);
    }
  }

  /** At most one heap of a chain holds a given range. */
  lemma {:induction false} ContainsOnce(heaps: seq<Heap>, root: nat, is64: bool, off: nat, n: nat, j: nat, k: nat)
    requires Linked(heaps) && root < |heaps| && n > 0
    requires j < |Chain(heaps, root)| && k < |Chain(heaps, root)|
    requires Contains(heaps[Chain(heaps, root)[j]], is64, off, n)
        && Contains(heaps[Chain(heaps, root)[k]], is64, off, n)
    ensures j == k
    decreases Rank(heaps, root)
  {
    assert HeapOk(heaps, root);
    ChainOrder(heaps, root, j);
    ChainOrder(heaps, root, k);
    if j > 0 && k > 0 {
      var y := heaps[root].next.value;
      assert HeapOk(heaps, y);
      ContainsOnce(heaps, y, is64, off, n, j - 1, k - 1);
    }
  }

  /** The walk finds the one heap that holds the range. */
  lemma FoundIs(heaps: seq<Heap>, root: nat, is64: bool, off: nat, n: nat, x: nat)
    requires Linked(heaps) && root < |heaps| && n > 0 && x in Chain(heaps, root) && Contains(heaps[x], is64, off, n)
    ensures Find(heaps, Chain(heaps, root), is64, off, n) == Some(x)
  {
    var c := Chain(heaps, root);
    var k :| 0 <= k < |c| && c[k] == x;
    var f := Find(heaps, c, is64, off, n).value;
    var j :| 0 <= j < |c| && c[j] == f;
    ContainsOnce(heaps, root, is64, off, n, j, k);
  }

  /** The chain of `root` is the same in `heaps'`, heap by heap, up to attach counts. */
  ghost predicate SameChain(heaps: seq<Heap>, heaps': seq<Heap>, root: nat)
    requires Linked(heaps) && Linked(heaps') && root < |heaps| <= |heaps'|
  {
    && Chain(heaps', root) == Chain(heaps, root)
    && forall x :: x in Chain(heaps, root) ==> heaps'[x] == heaps[x].(attached := heaps'[x].attached)
  }

  lemma SameAfterCreate(heaps: seq<Heap>, h: Heap, root: nat)
    requires HeapsInv(heaps) && root < |heaps|
    requires 0 < h.size <= APP_HEAP_SIZE_MAX && 0 < h.base && h.base + h.size < U64 && h.attached == 0
    requires h.next.None? && h.start64 == U64 - h.size && h.start32 == U32 - h.size
    ensures Linked(heaps + [h]) && SameChain(heaps, heaps + [h], root)
  {
    CreateKeeps(heaps, h);
  }

  lemma SameAfterCounter(heaps: seq<Heap>, x: nat, n: nat, root: nat)
    requires HeapsInv(heaps) && x < |heaps| && n < U8 && root < |heaps|
    ensures var heaps' := heaps[x := heaps[x].(attached := n)]; Linked(heaps') && SameChain(heaps, heaps', root)
  {
    CounterFrame(heaps, x, n);
  }

  lemma SameAfterChain(heaps: seq<Heap>, head: nat, body: nat, root: nat)
    requires HeapsInv(heaps) && head < |heaps| && body < |heaps| && CanChain(heaps, head, body)
    requires head != body && heaps[head].size <= heaps[body].start32 && root < |heaps| && root != head
    ensures Linked(Chained(heaps, head, body)) && SameChain(heaps, Chained(heaps, head, body), root)
  {
    ChainKeeps(heaps, head, body);
    RootNotInside(heaps, root, head);
  }

  lemma SameAfterUnchain(heaps: seq<Heap>, head: nat, entire: bool, root: nat)
    requires HeapsInv(heaps) && head < |heaps| && Root(heaps, head) && root < |heaps| && Root(heaps, root)
        && root != head
    ensures |Unchained(heaps, head, entire)| == |heaps| && Linked(Unchained(heaps, head, entire))
    ensures SameChain(heaps, Unchained(heaps, head, entire), root)
  {
    UnchainKeeps(heaps, head, entire);
    DisjointRoots(heaps, head, root);
  }

  /** No operation changes the chain or the offsets under an attached instance. */
  lemma AttachedFrozen(s: State, op: Op, i: nat)
    requires Inv(s) && CallerOk(s, op) && i < |s.instances| && s.instances[i].heap.Some?
    ensures s.instances[i].heap.value < |s.heaps| <= |Do(s, op).heaps| && Linked(Do(s, op).heaps)
    ensures SameChain(s.heaps, Do(s, op).heaps, s.instances[i].heap.value)
  {
    StepKeepsInv(s, op);
    assert InstanceOk(s.heaps, s.instances[i]);
    AttachedShows(s, i);
    FrozenBy(s, op, s.instances[i].heap.value);
  }

  lemma FrozenBy(s: State, op: Op, root: nat)
    requires Inv(s) && CallerOk(s, op) && Linked(Do(s, op).heaps)
    requires root < |s.heaps| && Root(s.heaps, root) && s.heaps[root].attached > 0
    ensures |s.heaps| <= |Do(s, op).heaps| && SameChain(s.heaps, Do(s, op).heaps, root)
  {
    match op
    case Create(size, pre, structOk, mapped, osPage) =>
      var h := NewHeap(size, pre, structOk, mapped, osPage);
      if h.Some? { SameAfterCreate(s.heaps, h.value, root); }
    case ChainHeaps(head, body) =>
      if CanChain(s.heaps, head, body) { SameAfterChain(s.heaps, head, body, root); }
    case UnchainHeaps(head, entire) =>
      if CanUnchain(s.heaps, head) { SameAfterUnchain(s.heaps, head, entire, root); }
    case AttachHeap(j, x) =>
      if CanAttach(s, j, x) { SameAfterCounter(s.heaps, x, Wrap8(s.heaps[x].attached + 1), root); }
    case DetachHeap(j) => FrozenByDetach(s, j, root);
    case _ =>
  }

  lemma FrozenByDetach(s: State, j: nat, root: nat)
    requires Inv(s) && j < |s.instances| && Linked(Do(s, DetachHeap(j)).heaps) && root < |s.heaps|
    ensures |s.heaps| <= |Do(s, DetachHeap(j)).heaps| && SameChain(s.heaps, Do(s, DetachHeap(j)).heaps, root)
  {
    assert InstanceOk(s.heaps, s.instances[j]);
    if s.instances[j].heap.Some? {
      var x := s.instances[j].heap.value;
      SameAfterCounter(s.heaps, x, Wrap8(s.heaps[x].attached - 1), root);
    }
  }

  /** In every state reached by a run whose callers keep their part, the lookup of an attached
      instance finds a range exactly if one heap of its chain holds all of it, whatever the
      cache held, and then caches exactly that heap; otherwise nothing changes. */
  lemma LookupInEveryRun(run: seq<Op>, i: nat, off: nat, bytes: u32)
    requires ValidRun(EMPTY, run) && i < |After(EMPTY, run).instances|
    ensures var s := After(EMPTY, run);
            && InstanceOk(s.heaps, s.instances[i])
            && var (r, found) := Lookup(s, i, off, bytes);
               && (found <==>
                     && HasHeap(s, i)
                     && exists x :: x in HeapsOf(s, i) && Contains(s.heaps[x], Is64(s, i), off, Bytes(bytes)))
               && (found ==> forall x :: x in HeapsOf(s, i) && Contains(s.heaps[x], Is64(s, i), off, Bytes(bytes)) ==>
                     r == SetCache(s, i, Describe(s.heaps[x], Is64(s, i))))
               && (!found ==> r == s)
  {
    var s := After(EMPTY, run);
    assert InstanceOk(s.heaps, s.instances[i]);
    if s.instances[i].heap.Some? {
      forall x | x in HeapsOf(s, i) && Contains(s.heaps[x], Is64(s, i), off, Bytes(bytes))
        ensures Find(s.heaps, HeapsOf(s, i), Is64(s, i), off, Bytes(bytes)) == Some(x)
      {
        FoundIs(s.heaps, s.instances[i].heap.value, Is64(s, i), off, Bytes(bytes), x);
      }
    }
  }

  /** The same for native addresses; a range of zero bytes is found nowhere. */
  lemma NativeInEveryRun(run: seq<Op>, i: nat, addr: nat, bytes: u32)
    requires ValidRun(EMPTY, run) && i < |After(EMPTY, run).instances|
    ensures var s := After(EMPTY, run);
            && InstanceOk(s.heaps, s.instances[i])
            && var (r, found) := NativeLookup(s, i, addr, bytes);
               && (found <==>
                     && HasHeap(s, i)
                     && exists x :: x in HeapsOf(s, i) && NativeContains(s.heaps[x], addr, bytes))
               && (found ==> exists x :: x in HeapsOf(s, i) && NativeContains(s.heaps[x], addr, bytes)
                                         && r == SetCache(s, i, Describe(s.heaps[x], Is64(s, i))))
               && (!found ==> r == s)
  {
    var s := After(EMPTY, run);
    assert InstanceOk(s.heaps, s.instances[i]);
  }

  // ----- When the operations succeed -----

  /** Creation adds one heap, as requested, exactly if the request can be met. */
  lemma CreateExact(s: State, size: u32, pre: Option<nat>, structOk: bool, mapped: Option<nat>, osPage: nat)
    requires Inv(s) && CallerOk(s, Create(size, pre, structOk, mapped, osPage))
    ensures var t := Do(s, Create(size, pre, structOk, mapped, osPage));
            && t.instances == s.instances
            && if size > 0 && structOk && APP_HEAP_SIZE_MIN <= Rounded(size, osPage) <= APP_HEAP_SIZE_MAX
                  && (if pre.Some? then size % osPage == 0 else mapped.Some?)
               then exists h :: t.heaps == s.heaps + [h] && HeapMade(h, size, pre, mapped, osPage)
               else t == s
  {
    NewHeapExact(size, pre, structOk, mapped, osPage);
  }

  lemma {:induction false} CountNone(instances: seq<Instance>, x: nat)
    ensures Count(instances, x) == 0 <==> forall i :: 0 <= i < |instances| ==> instances[i].heap != Some(x)
    decreases |instances|
  {
    if instances != [] {
      CountNone(instances[1..], x);
      assert forall i :: 1 <= i < |instances| ==> instances[i] == instances[1..][i - 1];
    }
  }

  /** A chain can be taken apart exactly if it has a second heap and no instance has it attached. */
  lemma CanUnchainExact(s: State, head: nat)
    requires Inv(s) && head < |s.heaps|
    ensures CanUnchain(s.heaps, head) <==>
              |Chain(s.heaps, head)| > 1 && forall i :: 0 <= i < |s.instances| ==> s.instances[i].heap != Some(head)
  {
    CountNone(s.instances, head);
    ChainFacts(s.heaps, head);
  }

  /** No heap of the chain of `x` holds an offset below `size`. */
  ghost predicate AllAbove(heaps: seq<Heap>, x: nat, is64: bool, size: nat)
    requires Linked(heaps) && x < |heaps|
  {
    forall y, off: nat :: y in Chain(heaps, x) && off < size ==> !Contains(heaps[y], is64, off, 1)
  }

  lemma AboveStart(heaps: seq<Heap>, x: nat, is64: bool, size: nat)
    requires Linked(heaps) && x < |heaps|
    ensures AllAbove(heaps, x, is64, size) <==> size <= Start(heaps[x], is64)
  {
    var c := Chain(heaps, x);
    ChainFacts(heaps, x);
    assert HeapOk(heaps, x);
    if size <= Start(heaps[x], is64) {
      forall y, off: nat | y in c && off < size
        ensures !Contains(heaps[y], is64, off, 1)
      {
        var k :| 0 <= k < |c| && c[k] == y;
        ChainOrder(heaps, x, k);
        assert Start(heaps[x], is64) <= Start(heaps[c[k]], is64);
      }
    } else {
      assert c[0] in c && Contains(heaps[x], is64, Start(heaps[x], is64), 1);
    }
  }

  /** A chain can be attached exactly to an instance that has a memory and no heap yet, and
      whose memory shares no offset with any heap of the chain. */
  lemma CanAttachExact(s: State, i: nat, x: nat)
    requires Linked(s.heaps) && i < |s.instances| && x < |s.heaps|
    ensures CanAttach(s, i, x) <==>
              && s.instances[i].mem.Some? && s.instances[i].heap.None?
              && AllAbove(s.heaps, x, s.instances[i].mem.value.is64, s.instances[i].mem.value.dataSize)
  {
    if s.instances[i].mem.Some? {
      AboveStart(s.heaps, x, s.instances[i].mem.value.is64, s.instances[i].mem.value.dataSize);
    }
  }

  /** Attaching gives the instance the chain and nothing else but the cache, and detaching
      takes it away again: all heaps are as before, counters included. */
  lemma DetachUndoesAttach(s: State, i: nat, x: nat)
    requires Inv(s) && i < |s.instances| && x < |s.heaps| && CanAttach(s, i, x)
    ensures var t := Attach(s, i, x).0;
            && |t.instances| == |s.instances| && |t.heaps| == |s.heaps|
            && t.instances[i] == s.instances[i].(heap := Some(x), cache := t.instances[i].cache)
            && Detach(t, i) == SetCache(s, i, DETACHED_CACHE)
  {
    var t := Attach(s, i, x).0;
    var n := s.heaps[x].attached;
    assert HeapOk(s.heaps, x);
    OneWrap(n + 1, U8);
    OneWrap(Wrap8(n + 1) - 1, U8);
    assert Detach(t, i).heaps == s.heaps;
    assert Detach(t, i).instances == SetCache(s, i, DETACHED_CACHE).instances;
  }

  lemma GrowResult(s: State, i: nat, inc: u32, platform: Platform, m: Memory, limit: Option<nat>)
    requires i < |s.instances| && (s.instances[i].heap.Some? ==> s.instances[i].heap.value < |s.heaps|)
    requires s.instances[i].mem == Some(m)
    requires limit == if s.instances[i].heap.None? then None
                      else Some(Start(s.heaps[s.instances[i].heap.value], m.is64))
    ensures Grow(s, i, inc, platform).1 == Enlarge(m, Growth(inc, platform, limit)).1
  {
  }

  /** No offset of a memory of `size` bytes is in a heap the instance can reach. */
  ghost predicate ClearOfHeaps(s: State, i: nat, size: nat)
    requires Linked(s.heaps) && i < |s.instances|
  {
    HasHeap(s, i) ==> AllAbove(s.heaps, s.instances[i].heap.value, Is64(s, i), size)
  }

  /** Growth through the module succeeds exactly if it stays within the maximum and shares no
      offset with a heap the instance can reach, and the platform plays along. `size` is the
      size asked for. */
  lemma GrowExact(s: State, i: nat, inc: u32, platform: Platform, m: Memory, size: nat)
    requires Inv(s) && i < |s.instances| && s.instances[i].mem == Some(m) && size == m.pageBytes * (m.curPages + inc)
    ensures InstanceOk(s.heaps, s.instances[i])
    ensures Grow(s, i, inc, platform).1 <==>
              || inc == 0
              || (m.curPages + inc <= m.maxPages && PlatformOk(m, platform) && ClearOfHeaps(s, i, size))
  {
    var inst := s.instances[i];
    assert InstanceOk(s.heaps, inst);
    if inst.heap.None? {
      GrowResult(s, i, inc, platform, m, None);
      GrowthExact(m, Growth(inc, platform, None));
    } else {
      var start := Start(s.heaps[inst.heap.value], m.is64);
      GrowResult(s, i, inc, platform, m, Some(start));
      GrowthExact(m, Growth(inc, platform, Some(start)));
      AboveStart(s.heaps, inst.heap.value, m.is64, size);
    }
  }

  /** A range that begins in one heap of the chain and ends in another is in none, so it is refused. */
  lemma StraddleRefused(heaps: seq<Heap>, root: nat, is64: bool, off: nat, n: nat, x: nat, y: nat, z: nat)
    requires Linked(heaps) && root < |heaps| && n > 0
    requires x in Chain(heaps, root) && y in Chain(heaps, root) && z in Chain(heaps, root) && x != y
    requires Contains(heaps[x], is64, off, 1) && Contains(heaps[y], is64, off + n - 1, 1)
    ensures !Contains(heaps[z], is64, off, n)
  {
    if Contains(heaps[z], is64, off, n) {
      SameHolder(heaps, root, is64, off, x, z);
      SameHolder(heaps, root, is64, off + n - 1, y, z);
    }
  }

  lemma SameHolder(heaps: seq<Heap>, root: nat, is64: bool, off: nat, x: nat, y: nat)
    requires Linked(heaps) && root < |heaps| && x in Chain(heaps, root) && y in Chain(heaps, root)
    requires Contains(heaps[x], is64, off, 1) && Contains(heaps[y], is64, off, 1)
    ensures x == y
  {
    var c := Chain(heaps, root);
    var j :| 0 <= j < |c| && c[j] == x;
    var k :| 0 <= k < |c| && c[k] == y;
    ContainsOnce(heaps, root, is64, off, 1, j, k);
  }
}
